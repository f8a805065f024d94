/**
  * `scan_folder`: find every git repository at or below a chosen folder,
  * drop repeated paths, and record each repository in the catalog.
  *
  * The folder dialog, the status line and the table refresh are outside the
  * model. What the scan reads from the filesystem besides the tree itself
  * (file sizes, `stat` times, `.git/config`, running git) is a `Probe`, keyed
  * by the path relative to the chosen folder.
  */
module Discovery {
  import opened Wrappers
  import opened Text
  import opened FileSystem
  import opened DirSize
  import opened RemoteUrl
  import opened Catalog

  /** The subdirectories `ds` of the directory at `at` that are git repositories, in listing order. */
  function GitChildren(at: Path, ds: seq<Dir>): seq<Located>
  {
    if ds == [] then []
    else
      var d := ds[|ds| - 1];
      GitChildren(at, ds[..|ds| - 1]) + (if IsGitRepo(d) then [Located(at + [d.name], d)] else [])
  }

  function RepoChildren(): Located -> seq<Located>
  {
    (v: Located) => GitChildren(v.path, v.dir.subdirs)
  }

  /**
    * The candidates `scan_folder` collects: the folder itself when it is a
    * repository, then every subdirectory of every directory the walk visits
    * (`.git` included) that is one.
    */
  ghost function Candidates(base: Dir): seq<Located>
  {
    (if IsGitRepo(base) then [Located([], base)] else []) + FlatMap(Walk(base, [], false), RepoChildren())
  }

  /** The discovery loop of `scan_folder`, with `os.walk` written out. */
  method DiscoverCandidates(base: Dir) returns (candidates: seq<Located>)
    ensures candidates == Candidates(base)
  {
    candidates := [];
    if FindChild(base.subdirs, GIT_DIR).Some? {
      candidates := [Located([], base)];
    }
    var stack := [Located([], base)];
    WalkFromTop(base, [], false);
    while stack != []
      invariant candidates + FlatMap(WalkStack(stack, false), RepoChildren()) == Candidates(base)
      decreases |WalkStack(stack, false)|
    {
      var v, rest := stack[0], stack[1..];
      assert stack == [v] + rest;
      var dirs := v.dir.subdirs;
      var here := [];
      for k := 0 to |dirs|
        invariant here == GitChildren(v.path, dirs[..k])
      {
        GitChildrenStep(v.path, dirs, k);
        if FindChild(dirs[k].subdirs, GIT_DIR).Some? {
          here := here + [Located(v.path + [dirs[k].name], dirs[k])];
        }
      }
      assert dirs[..|dirs|] == dirs;
      RepoWalkStep(v, rest);
      AppendAssoc(candidates, here, FlatMap(WalkStack(Children(v, false) + rest, false), RepoChildren()));
      candidates := candidates + here;
      stack := Locate(dirs, v.path) + rest;
    }
  }

  lemma GitChildrenStep(at: Path, ds: seq<Dir>, k: nat)
    requires k < |ds|
    ensures GitChildren(at, ds[..k + 1]) ==
            GitChildren(at, ds[..k]) + (if IsGitRepo(ds[k]) then [Located(at + [ds[k].name], ds[k])] else [])
  {
    assert ds[..k + 1][..k] == ds[..k];
  }

  lemma RepoWalkStep(v: Located, rest: seq<Located>)
    ensures FlatMap(WalkStack([v] + rest, false), RepoChildren()) ==
            GitChildren(v.path, v.dir.subdirs) + FlatMap(WalkStack(Children(v, false) + rest, false), RepoChildren())
    ensures |WalkStack(Children(v, false) + rest, false)| < |WalkStack([v] + rest, false)|
    ensures Children(v, false) == Locate(v.dir.subdirs, v.path)
  {
    WalkStepOutput(v, rest, false, RepoChildren());
  }

  lemma {:induction false} GitChildrenMembers(at: Path, ds: seq<Dir>, x: Located)
    ensures x in GitChildren(at, ds) <==> x in Locate(ds, at) && IsGitRepo(x.dir)
  {
    if ds != [] {
      var init := ds[..|ds| - 1];
      GitChildrenMembers(at, init, x);
      assert Locate(ds, at) == Locate(init, at) + [Located(at + [ds[|ds| - 1].name], ds[|ds| - 1])];
    }
  }

  /**
    * The candidates are exactly the directories the walk visits, the folder
    * included, that are git repositories.
    */
  lemma CandidateMembers(base: Dir, x: Located)
    ensures x in Candidates(base) <==> x in Walk(base, [], false) && IsGitRepo(x.dir)
  {
    var vs := Walk(base, [], false);
    FlatMapMembers(vs, RepoChildren(), x);
    WalkMembers(base, [], false, x);
    forall u | u in vs
      ensures x in RepoChildren()(u) <==> x in Children(u, false) && IsGitRepo(x.dir)
    {
      GitChildrenMembers(u.path, u.dir.subdirs, x);
    }
  }

  predicate DistinctPaths(us: seq<Located>)
  {
    forall i, j :: 0 <= i < j < |us| ==> us[i].path != us[j].path
  }

  /** Some entry of `us` is at `p`. */
  predicate HasPath(us: seq<Located>, p: Path)
  {
    exists i :: 0 <= i < |us| && us[i].path == p
  }

  /**
    * The `seen`/`uniq` pass of `scan_folder`: the first candidate for each
    * path, in the order the candidates came.
    */
  function DedupByPath(cs: seq<Located>): (r: seq<Located>)
    ensures DistinctPaths(r)
    ensures forall p :: HasPath(r, p) <==> HasPath(cs, p)
    ensures forall u :: u in r ==> u in cs
  {
    if cs == [] then []
    else
      var init, c := cs[..|cs| - 1], cs[|cs| - 1];
      var d := DedupByPath(init);
      assert forall p :: HasPath(cs, p) <==> HasPath(init, p) || c.path == p by {
        forall p ensures HasPath(cs, p) <==> HasPath(init, p) || c.path == p {
          if HasPath(cs, p) {
            var i :| 0 <= i < |cs| && cs[i].path == p;
            if i < |init| {
              assert init[i] == cs[i];
            }
          }
          if HasPath(init, p) {
            var i :| 0 <= i < |init| && init[i].path == p;
            assert cs[i] == init[i];
          }
        }
      }
      if HasPath(d, c.path) then d
      else
        var r := d + [c];
        assert forall p :: HasPath(r, p) <==> HasPath(d, p) || c.path == p by {
          forall p ensures HasPath(r, p) <==> HasPath(d, p) || c.path == p {
            assert r[|d|] == c;
            if HasPath(r, p) {
              var i :| 0 <= i < |r| && r[i].path == p;
              if i < |d| {
                assert d[i] == r[i];
              }
            }
            if HasPath(d, p) {
              var i :| 0 <= i < |d| && d[i].path == p;
              assert r[i] == d[i];
            }
          }
        }
        r
  }

  /** The dedup loop of `scan_folder`. */
  method Dedup(candidates: seq<Located>) returns (uniq: seq<Located>)
    ensures uniq == DedupByPath(candidates)
  {
    var seen: set<Path> := {};
    uniq := [];
    for k := 0 to |candidates|
      invariant uniq == DedupByPath(candidates[..k])
      invariant forall p :: p in seen <==> HasPath(uniq, p)
    {
      var c := candidates[k];
      assert candidates[..k + 1][..k] == candidates[..k];
      if c.path !in seen {
        uniq := uniq + [c];
        seen := seen + {c.path};
        assert uniq[|uniq| - 1].path == c.path;
        forall p | HasPath(uniq, p) ensures p in seen {
          var i :| 0 <= i < |uniq| && uniq[i].path == p;
          if i < |uniq| - 1 {
            assert HasPath(uniq[..|uniq| - 1], p);
          }
        }
      }
    }
    assert candidates[..|candidates|] == candidates;
  }

  /** No candidate before position `k` has the path of `cs[k]`. */
  predicate IsFirstAt(cs: seq<Located>, k: int)
    requires 0 <= k < |cs|
  {
    forall j :: 0 <= j < k ==> cs[j].path != cs[k].path
  }

  /** The candidates among the first `n` that are the first at their path, in order. */
  function FirstOccurrences(cs: seq<Located>, n: nat): seq<Located>
    requires n <= |cs|
  {
    if n == 0 then []
    else FirstOccurrences(cs, n - 1) + (if IsFirstAt(cs, n - 1) then [cs[n - 1]] else [])
  }

  /**
    * The dedup pass keeps exactly the first candidate at each path and keeps
    * them in their original order.
    */
  lemma DedupIsFirstOccurrences(cs: seq<Located>)
    ensures DedupByPath(cs) == FirstOccurrences(cs, |cs|)
  {
    DedupPrefix(cs, |cs|);
    assert cs[..|cs|] == cs;
  }

  lemma {:induction false} DedupPrefix(cs: seq<Located>, n: nat)
    requires n <= |cs|
    ensures DedupByPath(cs[..n]) == FirstOccurrences(cs, n)
  {
    if n > 0 {
      DedupPrefix(cs, n - 1);
      var pre := cs[..n];
      assert pre[..n - 1] == cs[..n - 1];
      var c := cs[n - 1];
      assert HasPath(cs[..n - 1], c.path) <==> !IsFirstAt(cs, n - 1) by {
        if !IsFirstAt(cs, n - 1) {
          var j :| 0 <= j < n - 1 && cs[j].path == c.path;
          assert cs[..n - 1][j] == cs[j];
        }
      }
    }
  }

  /** Candidates that already have distinct paths pass through unchanged. */
  lemma DedupDistinctIsIdentity(cs: seq<Located>)
    requires DistinctPaths(cs)
    ensures DedupByPath(cs) == cs
  {
    DedupIsFirstOccurrences(cs);
    FirstOccurrencesOfDistinct(cs, |cs|);
    assert cs[..|cs|] == cs;
  }

  lemma {:induction false} FirstOccurrencesOfDistinct(cs: seq<Located>, n: nat)
    requires n <= |cs| && DistinctPaths(cs)
    ensures FirstOccurrences(cs, n) == cs[..n]
  {
    if n > 0 {
      FirstOccurrencesOfDistinct(cs, n - 1);
      assert IsFirstAt(cs, n - 1);
      assert cs[..n] == cs[..n - 1] + [cs[n - 1]];
    }
  }

  /** `str(base / c1 / ... / cn)` on POSIX: the chosen folder's string, then `/` and each component. */
  function PathString(baseStr: string, p: Path): string
  {
    if p == [] then baseStr else PathString(baseStr, p[..|p| - 1]) + "/" + p[|p| - 1]
  }

  /** What the scan reads besides the tree, by path relative to the chosen folder. */
  datatype Probe = Probe(
    sizes: map<Path, nat>,          // `os.path.getsize`; a missing path raised `OSError`
    mtimes: map<Path, int>,         // `int(stat().st_mtime)`; a missing path made `stat` raise
    config: Path -> GitConfig,      // what reading `.git/config` gives
    git: Path -> GitRun)            // what `git remote get-url origin` gives

  /**
    * The body of the per-repository `try` block: size, modification time and
    * remote, then `upsert_repo`. When `stat` raises, the exception is logged
    * and the repository skipped.
    */
  ghost function ScanOne(t: Table, u: Located, baseStr: string, probe: Probe): Table
  {
    if u.path !in probe.mtimes then t
    else
      UpsertRow(t, u.dir.name, PathString(baseStr, u.path), DirSize.DirSize(u.dir, u.path, true, probe.sizes),
                probe.mtimes[u.path], GetGitRemoteUrl(probe.config(u.path), probe.git(u.path)))
  }

  /** The catalog after scanning the repositories `us` in order. */
  ghost function ScanAll(t: Table, us: seq<Located>, baseStr: string, probe: Probe): Table
  {
    if us == [] then t else ScanOne(ScanAll(t, us[..|us| - 1], baseStr, probe), us[|us| - 1], baseStr, probe)
  }

  /**
    * `scan_folder` once the folder `base`, whose path string is `baseStr`, has
    * been chosen. The folder's own row is named `base.name`, which stands for
    * `Path(folder).name`, the last component of `baseStr`.
    */
  method ScanFolder(db: RepoDB, base: Dir, baseStr: string, probe: Probe)
    requires db.Valid()
    modifies db
    ensures db.Valid()
    ensures db.State() == ScanAll(old(db.State()), DedupByPath(Candidates(base)), baseStr, probe)
  {
    var candidates := DiscoverCandidates(base);
    var uniq := Dedup(candidates);
    for i := 0 to |uniq|
      invariant db.Valid()
      invariant db.State() == ScanAll(old(db.State()), uniq[..i], baseStr, probe)
    {
      var u := uniq[i];
      ScanAllStep(old(db.State()), uniq, i, baseStr, probe);
      var size := ComputeDirSize(u.dir, u.path, true, probe.sizes);
      if u.path in probe.mtimes {
        var mtime := probe.mtimes[u.path];
        var remote := GetGitRemoteUrl(probe.config(u.path), probe.git(u.path));
        db.Upsert(u.dir.name, PathString(baseStr, u.path), size, mtime, remote);
      }
    }
    assert uniq[..|uniq|] == uniq;
  }

  lemma ScanAllStep(t: Table, us: seq<Located>, i: nat, baseStr: string, probe: Probe)
    requires i < |us|
    ensures ScanAll(t, us[..i + 1], baseStr, probe) == ScanOne(ScanAll(t, us[..i], baseStr, probe), us[i], baseStr, probe)
  {
    assert us[..i + 1][..i] == us[..i];
  }

  lemma {:induction false} PathStringLength(baseStr: string, p: Path)
    ensures |PathString(baseStr, p)| >= |baseStr| + |p|
  {
    if p != [] {
      PathStringLength(baseStr, p[..|p| - 1]);
    }
  }

  /** The last separator of `a/x` is the one before `x`. */
  lemma LastSlashBefore(a: string, x: string)
    requires SlashFree(x)
    ensures LastIndexOf(a + "/" + x, '/') == |a|
  {
    var s := a + "/" + x;
    assert s[|a|] == '/';
    assert s[|a| + 1..] == x;
    forall k | |a| < k < |s| ensures s[k] != '/' {
      assert s[k] == s[|a| + 1..][k - |a| - 1];
    }
    LastIndexOfIs(s, '/', |a|);
  }

  /** The text after the last separator is the last component, and what precedes it the rest. */
  lemma SplitAtLastSlash(a: string, x: string, b: string, y: string)
    requires SlashFree(x) && SlashFree(y)
    requires a + "/" + x == b + "/" + y
    ensures x == y && a == b
  {
    var s := a + "/" + x;
    LastSlashBefore(a, x);
    LastSlashBefore(b, y);
    assert x == s[|a| + 1..];
    assert y == (b + "/" + y)[|b| + 1..];
    assert a == s[..|a|];
    assert b == (b + "/" + y)[..|b|];
  }

  /** Distinct relative paths give distinct path strings, as long as no component contains a separator. */
  lemma {:induction false} PathStringInjective(baseStr: string, p: Path, q: Path)
    requires forall k :: 0 <= k < |p| ==> SlashFree(p[k])
    requires forall k :: 0 <= k < |q| ==> SlashFree(q[k])
    requires PathString(baseStr, p) == PathString(baseStr, q)
    ensures p == q
    decreases |p|
  {
    if p == [] && q != [] {
      PathStringLength(baseStr, q[..|q| - 1]);
    } else if p != [] && q == [] {
      PathStringLength(baseStr, p[..|p| - 1]);
    } else if p != [] {
      var p', q' := p[..|p| - 1], q[..|q| - 1];
      SplitAtLastSlash(PathString(baseStr, p'), p[|p| - 1], PathString(baseStr, q'), q[|q| - 1]);
      PathStringInjective(baseStr, p', q');
      assert p == p' + [p[|p| - 1]];
      assert q == q' + [q[|q| - 1]];
    }
  }

  /**
    * A scan never deletes a row: every row keeps its position, id and path,
    * and a row whose path no scanned repository has is left as it was.
    */
  lemma {:induction false} ScanNeverDeletes(t: Table, us: seq<Located>, baseStr: string, probe: Probe)
    ensures var r := ScanAll(t, us, baseStr, probe);
      && |r.rows| >= |t.rows|
      && (forall i :: 0 <= i < |t.rows| ==> r.rows[i].id == t.rows[i].id && r.rows[i].path == t.rows[i].path)
      && (forall i :: 0 <= i < |t.rows| && (forall u :: u in us ==> PathString(baseStr, u.path) != t.rows[i].path) ==>
            r.rows[i] == t.rows[i])
  {
    if us != [] {
      var init, u := us[..|us| - 1], us[|us| - 1];
      ScanNeverDeletes(t, init, baseStr, probe);
      var m := ScanAll(t, init, baseStr, probe);
      if u.path in probe.mtimes {
        var path := PathString(baseStr, u.path);
        UpsertKeepsOtherRows(m, u.dir.name, path, DirSize.DirSize(u.dir, u.path, true, probe.sizes),
                             probe.mtimes[u.path], GetGitRemoteUrl(probe.config(u.path), probe.git(u.path)));
      }
      forall i | 0 <= i < |t.rows| && (forall u' :: u' in us ==> PathString(baseStr, u'.path) != t.rows[i].path)
        ensures forall u' :: u' in init ==> PathString(baseStr, u'.path) != t.rows[i].path
      {
        forall u' | u' in init ensures PathString(baseStr, u'.path) != t.rows[i].path {
          assert u' in us;
        }
      }
    }
  }

  /** The row `upsert_repo` writes for the repository `u` is in the table. */
  ghost predicate Catalogued(t: Table, u: Located, baseStr: string, probe: Probe)
  {
    u.path in probe.mtimes ==>
      exists i :: 0 <= i < |t.rows| &&
        var row := t.rows[i];
        && row.name == u.dir.name
        && row.path == PathString(baseStr, u.path)
        && row.sizeBytes == DirSize.DirSize(u.dir, u.path, true, probe.sizes)
        && row.mtime == probe.mtimes[u.path]
        && row.remoteUrl == GetGitRemoteUrl(probe.config(u.path), probe.git(u.path))
  }

  /** Scanning `u` keeps the row of another repository `v` whose path string differs. */
  lemma ScanOneKeepsCatalogued(m: Table, u: Located, v: Located, baseStr: string, probe: Probe)
    requires Catalogued(m, v, baseStr, probe)
    requires PathString(baseStr, u.path) != PathString(baseStr, v.path)
    ensures Catalogued(ScanOne(m, u, baseStr, probe), v, baseStr, probe)
  {
    if u.path in probe.mtimes && v.path in probe.mtimes {
      var r := ScanOne(m, u, baseStr, probe);
      UpsertKeepsOtherRows(m, u.dir.name, PathString(baseStr, u.path), DirSize.DirSize(u.dir, u.path, true, probe.sizes),
                           probe.mtimes[u.path], GetGitRemoteUrl(probe.config(u.path), probe.git(u.path)));
      var i :| 0 <= i < |m.rows| && m.rows[i].path == PathString(baseStr, v.path) &&
               m.rows[i].name == v.dir.name &&
               m.rows[i].sizeBytes == DirSize.DirSize(v.dir, v.path, true, probe.sizes) &&
               m.rows[i].mtime == probe.mtimes[v.path] &&
               m.rows[i].remoteUrl == GetGitRemoteUrl(probe.config(v.path), probe.git(v.path));
      assert r.rows[i] == m.rows[i];
    }
  }

  /** Scanning `u` stores its row and keeps the table well-formed. */
  lemma ScanOneCatalogues(m: Table, u: Located, baseStr: string, probe: Probe)
    requires WellFormed(m)
    ensures WellFormed(ScanOne(m, u, baseStr, probe))
    ensures Catalogued(ScanOne(m, u, baseStr, probe), u, baseStr, probe)
  {
    if u.path in probe.mtimes {
      var path := PathString(baseStr, u.path);
      var size := DirSize.DirSize(u.dir, u.path, true, probe.sizes);
      var remote := GetGitRemoteUrl(probe.config(u.path), probe.git(u.path));
      UpsertKeepsWellFormed(m, u.dir.name, path, size, probe.mtimes[u.path], remote);
      UpsertStoresArguments(m, u.dir.name, path, size, probe.mtimes[u.path], remote);
      var r := ScanOne(m, u, baseStr, probe);
      var i := IndexOfPath(r.rows, path);
      assert r.rows[i].path == path;
    }
  }

  /**
    * When the scanned repositories have distinct path strings, each of them
    * whose `stat` succeeds ends up with a row carrying its name, size,
    * modification time and remote, and the table stays well-formed.
    */
  lemma {:induction false} ScanStoresEveryRepo(t: Table, us: seq<Located>, baseStr: string, probe: Probe)
    requires WellFormed(t)
    requires forall i, j :: 0 <= i < j < |us| ==> PathString(baseStr, us[i].path) != PathString(baseStr, us[j].path)
    ensures WellFormed(ScanAll(t, us, baseStr, probe))
    ensures forall k :: 0 <= k < |us| ==> Catalogued(ScanAll(t, us, baseStr, probe), us[k], baseStr, probe)
  {
    if us != [] {
      var init, u := us[..|us| - 1], us[|us| - 1];
      ScanStoresEveryRepo(t, init, baseStr, probe);
      var m := ScanAll(t, init, baseStr, probe);
      ScanOneCatalogues(m, u, baseStr, probe);
      forall k | 0 <= k < |us| - 1 ensures Catalogued(ScanAll(t, us, baseStr, probe), us[k], baseStr, probe) {
        assert us[k] == init[k];
        ScanOneKeepsCatalogued(m, u, us[k], baseStr, probe);
      }
    }
  }

  /**
    * `scan_folder` catalogues every git repository at or below the chosen
    * folder whose `stat` succeeds: its row holds its own name, its size
    * without `.git`, its modification time and its remote. On a tree where
    * names are unique in each directory and contain no separator.
    */
  lemma ScanCataloguesEveryRepo(t: Table, base: Dir, baseStr: string, probe: Probe)
    requires WellFormed(t) && UniqueNames(base) && SlashFreeNames(base)
    ensures forall x :: x in Walk(base, [], false) && IsGitRepo(x.dir) ==>
              Catalogued(ScanAll(t, DedupByPath(Candidates(base)), baseStr, probe), x, baseStr, probe)
  {
    var us := DedupByPath(Candidates(base));
    DedupedPathStringsDistinct(base, baseStr, us);
    ScanStoresEveryRepo(t, us, baseStr, probe);
    forall x | x in Walk(base, [], false) && IsGitRepo(x.dir)
      ensures Catalogued(ScanAll(t, us, baseStr, probe), x, baseStr, probe)
    {
      DedupedKeepsRepo(base, x);
    }
  }

  /** The candidates left after removing duplicates have pairwise different path strings. */
  lemma DedupedPathStringsDistinct(base: Dir, baseStr: string, us: seq<Located>)
    requires SlashFreeNames(base) && us == DedupByPath(Candidates(base))
    ensures forall i, j :: 0 <= i < j < |us| ==> PathString(baseStr, us[i].path) != PathString(baseStr, us[j].path)
  {
    var vs := Walk(base, [], false);
    WalkComponentsSlashFree(base, [], false);
    forall i, j | 0 <= i < j < |us| ensures PathString(baseStr, us[i].path) != PathString(baseStr, us[j].path) {
      if PathString(baseStr, us[i].path) == PathString(baseStr, us[j].path) {
        CandidateMembers(base, us[i]);
        CandidateMembers(base, us[j]);
        PathStringInjective(baseStr, us[i].path, us[j].path);
      }
    }
  }

  /** Removing duplicates keeps every repository of a tree whose names are unique in each directory. */
  lemma DedupedKeepsRepo(base: Dir, x: Located)
    requires UniqueNames(base)
    requires x in Walk(base, [], false) && IsGitRepo(x.dir)
    ensures exists i :: 0 <= i < |DedupByPath(Candidates(base))| && DedupByPath(Candidates(base))[i] == x
  {
    var cs := Candidates(base);
    var us := DedupByPath(cs);
    CandidateMembers(base, x);
    var k :| 0 <= k < |cs| && cs[k] == x;
    assert HasPath(cs, x.path);
    var i :| 0 <= i < |us| && us[i].path == x.path;
    assert us[i] in cs;
    CandidateMembers(base, us[i]);
    WalkPathsDetermine(base, [], false, us[i], x);
  }
}
