/**
  * `zip_directory`: which entries the archive receives, and in which order.
  *
  * Compression and the archive's bytes are outside the model. `failing` holds
  * the files for which `ZipFile.write` raises (unreadable, vanished); they are
  * skipped and the walk goes on.
  */
module Archive {
  import opened FileSystem

  /** The entries the files of the directory at `at` add, in listing order. */
  function Written(at: Path, files: seq<string>, failing: set<Path>): seq<Path>
  {
    if files == [] then []
    else
      var fp := at + [files[|files| - 1]];
      Written(at, files[..|files| - 1], failing) + (if fp in failing then [] else [fp])
  }

  function WrittenIn(failing: set<Path>): Located -> seq<Path>
  {
    (v: Located) => Written(v.path, v.dir.files, failing)
  }

  /**
    * The archive's entry names: every file of every directory the walk
    * visits, relative to the archived directory; `.git` is removed from the
    * descent unless `includeGit`.
    */
  ghost function ArchiveEntries(top: Dir, includeGit: bool, failing: set<Path>): seq<Path>
  {
    FlatMap(Walk(top, [], !includeGit), WrittenIn(failing))
  }

  /** `zip_directory(source_dir, dest_zip, include_git)`, with `os.walk` written out. */
  method ZipDirectory(top: Dir, includeGit: bool, failing: set<Path>) returns (entries: seq<Path>)
    ensures entries == ArchiveEntries(top, includeGit, failing)
  {
    var prune := !includeGit;
    entries := [];
    var stack := [Located([], top)];
    WalkFromTop(top, [], prune);
    while stack != []
      invariant entries + FlatMap(WalkStack(stack, prune), WrittenIn(failing)) == ArchiveEntries(top, includeGit, failing)
      decreases |WalkStack(stack, prune)|
    {
      var v, rest := stack[0], stack[1..];
      assert stack == [v] + rest;
      var dirs := v.dir.subdirs;
      if prune && FindChild(dirs, GIT_DIR).Some? {
        dirs := RemoveFirst(dirs, GIT_DIR);
      }
      var files := v.dir.files;
      var added := [];
      for k := 0 to |files|
        invariant added == Written(v.path, files[..k], failing)
      {
        var arcname := v.path + [files[k]];
        WrittenStep(v.path, files, k, failing);
        if arcname !in failing {
          added := added + [arcname];
        }
      }
      assert files[..|files|] == files;
      assert dirs == Descend(v.dir, prune);
      ArchiveStep(v, rest, prune, failing);
      ghost var tail := FlatMap(WalkStack(Children(v, prune) + rest, prune), WrittenIn(failing));
      AppendAssoc(entries, added, tail);
      entries := entries + added;
      stack := Locate(dirs, v.path) + rest;
    }
  }

  lemma WrittenStep(at: Path, files: seq<string>, k: nat, failing: set<Path>)
    requires k < |files|
    ensures Written(at, files[..k + 1], failing) ==
            Written(at, files[..k], failing) + (if at + [files[k]] in failing then [] else [at + [files[k]]])
  {
    assert files[..k + 1][..k] == files[..k];
  }

  lemma ArchiveStep(v: Located, rest: seq<Located>, prune: bool, failing: set<Path>)
    ensures FlatMap(WalkStack([v] + rest, prune), WrittenIn(failing)) ==
            Written(v.path, v.dir.files, failing) + FlatMap(WalkStack(Children(v, prune) + rest, prune), WrittenIn(failing))
    ensures |WalkStack(Children(v, prune) + rest, prune)| < |WalkStack([v] + rest, prune)|
  {
    WalkStepOutput(v, rest, prune, WrittenIn(failing));
  }

  lemma {:induction false} WrittenMembers(at: Path, files: seq<string>, failing: set<Path>, e: Path)
    ensures e in Written(at, files, failing) <==>
            e !in failing && |e| == |at| + 1 && e[..|at|] == at && e[|at|] in files
  {
    if files != [] {
      var init := files[..|files| - 1];
      WrittenMembers(at, init, failing, e);
      assert files == init + [files[|files| - 1]];
      if |e| == |at| + 1 && e[..|at|] == at {
        assert e == at + [e[|at|]];
      }
    }
  }

  /**
    * An entry is exactly the relative path of a file, in a directory the walk
    * visits, whose write did not fail.
    */
  lemma ArchiveEntryMembers(top: Dir, includeGit: bool, failing: set<Path>, e: Path)
    ensures e in ArchiveEntries(top, includeGit, failing) <==>
            e !in failing && |e| > 0 &&
            exists v :: v in Walk(top, [], !includeGit) && v.path == e[..|e| - 1] && e[|e| - 1] in v.dir.files
  {
    var vs := Walk(top, [], !includeGit);
    FlatMapMembers(vs, WrittenIn(failing), e);
    forall v | v in vs
      ensures e in WrittenIn(failing)(v) <==>
              e !in failing && |e| > 0 && v.path == e[..|e| - 1] && e[|e| - 1] in v.dir.files
    {
      WrittenMembers(v.path, v.dir.files, failing, e);
    }
  }

  /** Without `include_git`, no entry lies inside a `.git` directory. */
  lemma ExcludedGitNotArchived(top: Dir, failing: set<Path>)
    requires UniqueNames(top)
    ensures forall e :: e in ArchiveEntries(top, false, failing) ==> !InGitDir(e, 0)
  {
    PrunedWalkAvoidsGit(top, []);
    forall e | e in ArchiveEntries(top, false, failing) ensures !InGitDir(e, 0) {
      ArchiveEntryMembers(top, false, failing, e);
      var v :| v in Walk(top, [], true) && v.path == e[..|e| - 1] && e[|e| - 1] in v.dir.files;
      forall i | 0 <= i < |e| - 1 ensures e[i] != GIT_DIR {
        assert e[i] == v.path[i];
      }
    }
  }
}
