/**
  * Choosing a preview image for a repository: `list_candidate_images`,
  * `score_image` and `pick_best_image`.
  *
  * Decoding images is outside the model: `sizeOf` maps each image file that
  * PIL can open to its `(width, height)`; a path missing from it is one PIL
  * cannot open. Paths are relative to the repository root.
  */
module Images {
  import opened Wrappers
  import opened Text
  import opened FileSystem

  /** The directories below the repository root that are searched, in this order. */
  const IMAGE_DIR_CANDIDATES: seq<string> := ["assets", "Assets", "media", "Media"]

  /** The accepted extensions, compared after lower-casing. */
  const IMAGE_EXTS: seq<string> := [".png", ".jpg", ".jpeg", ".webp", ".gif"]

  /** GitHub's social preview size. */
  const TARGET_W: int := 1280
  const TARGET_H: int := 640
  const TARGET_AR: real := TARGET_W as real / TARGET_H as real

  /** The score `pick_best_image` starts from: only images scoring below it are chosen. */
  const INITIAL_BEST: real := 1_000_000_000_000_000_000.0

  /** The score of an image `score_image` cannot measure (a zero or negative side). */
  const DEGENERATE_SCORE: real := 1_000_000_000.0

  /** Some character of `s` before position `i` is not a dot. */
  predicate HasStemBefore(s: string, i: int)
  {
    exists j :: 0 <= j < i && j < |s| && s[j] != '.'
  }

  /**
    * `os.path.splitext(name)[1]` for a name without separators: from the last
    * dot on, provided some non-dot character precedes it (so `.png` and `..`
    * have no extension), and empty otherwise.
    */
  function Extension(name: string): (r: string)
    ensures r != [] <==> exists i :: 0 <= i < |name| && name[i] == '.' && HasStemBefore(name, i)
    ensures r != [] ==> exists i :: 0 < i < |name| && r == name[i..] && name[i] == '.' &&
                                    HasStemBefore(name, i) && forall k :: i < k < |name| ==> name[k] != '.'
  {
    var dot := LastIndexOf(name, '.');
    if dot >= 0 && HasStemBefore(name, dot) then
      name[dot..]
    else
      assert forall i :: 0 <= i < |name| && name[i] == '.' && HasStemBefore(name, i) ==> HasStemBefore(name, dot);
      []
  }

  /** The file name's lower-cased extension is one of `IMAGE_EXTS`. */
  predicate IsImageFile(name: string)
  {
    Lower(Extension(name)) in IMAGE_EXTS
  }

  /** An image file's name is a non-empty stem followed by an accepted extension, in any case. */
  lemma ImageNameHasStem(name: string)
    requires IsImageFile(name)
    ensures exists e :: e in IMAGE_EXTS && |e| < |name| && Lower(name[|name| - |e|..]) == e
  {
    var r := Extension(name);
    assert r != [] by {
      assert Lower([]) == [];
    }
    var i :| 0 < i < |name| && r == name[i..] && name[i] == '.' && HasStemBefore(name, i) &&
             forall k :: i < k < |name| ==> name[k] != '.';
    assert name[|name| - |r|..] == r;
  }

  /** A name with nothing but dots before its last dot, such as `.png`, is never an image. */
  lemma DotFileIsNotImage(name: string)
    requires LastIndexOf(name, '.') >= 0
    requires forall j :: 0 <= j < LastIndexOf(name, '.') ==> name[j] == '.'
    ensures !IsImageFile(name)
  {
    var dot := LastIndexOf(name, '.');
    assert !HasStemBefore(name, dot);
    assert Extension(name) == [];
    var ext := Lower(Extension(name));
    assert |ext| == 0;
    assert ext !in IMAGE_EXTS;
  }

  /** The paths of the files of the directory at `at` that `keep` accepts, in listing order. */
  function FilesWhere(at: Path, files: seq<string>, keep: string -> bool): seq<Path>
  {
    if files == [] then []
    else
      var f := files[|files| - 1];
      FilesWhere(at, files[..|files| - 1], keep) + (if keep(f) then [at + [f]] else [])
  }

  function ImagesIn(): Located -> seq<Path>
  {
    (v: Located) => FilesWhere(v.path, v.dir.files, IsImageFile)
  }

  /**
    * What `list_candidate_images` returns when it has looked into the candidate
    * directories `names`: for each of them that is a directory of the root,
    * the image files of its whole tree, in walk order.
    */
  ghost function ImagesUnder(root: Dir, names: seq<string>): seq<Path>
  {
    if names == [] then []
    else
      var d := names[|names| - 1];
      ImagesUnder(root, names[..|names| - 1]) +
      match FindChild(root.subdirs, d)
      case None => []
      case Some(c) => FlatMap(Walk(c, [d], false), ImagesIn())
  }

  ghost function CandidateImages(root: Dir): seq<Path>
  {
    ImagesUnder(root, IMAGE_DIR_CANDIDATES)
  }

  /** The `os.walk(p)` of `list_candidate_images`, over one candidate directory found at `at`. */
  method WalkImages(top: Dir, at: Path) returns (found: seq<Path>)
    ensures found == FlatMap(Walk(top, at, false), ImagesIn())
  {
    found := [];
    var stack := [Located(at, top)];
    WalkFromTop(top, at, false);
    while stack != []
      invariant found + FlatMap(WalkStack(stack, false), ImagesIn()) == FlatMap(Walk(top, at, false), ImagesIn())
      decreases |WalkStack(stack, false)|
    {
      var v, rest := stack[0], stack[1..];
      assert stack == [v] + rest;
      var files := v.dir.files;
      var here := [];
      for k := 0 to |files|
        invariant here == FilesWhere(v.path, files[..k], IsImageFile)
      {
        FilesWhereStep(v.path, files, IsImageFile, k);
        if IsImageFile(files[k]) {
          here := here + [v.path + [files[k]]];
        }
      }
      assert files[..|files|] == files;
      ImagesWalkStep(v, rest);
      AppendAssoc(found, here, FlatMap(WalkStack(Children(v, false) + rest, false), ImagesIn()));
      found := found + here;
      stack := Locate(v.dir.subdirs, v.path) + rest;
    }
  }

  lemma FilesWhereStep(at: Path, files: seq<string>, keep: string -> bool, k: nat)
    requires k < |files|
    ensures FilesWhere(at, files[..k + 1], keep) ==
            FilesWhere(at, files[..k], keep) + (if keep(files[k]) then [at + [files[k]]] else [])
  {
    assert files[..k + 1][..k] == files[..k];
  }

  lemma ImagesWalkStep(v: Located, rest: seq<Located>)
    ensures FlatMap(WalkStack([v] + rest, false), ImagesIn()) ==
            FilesWhere(v.path, v.dir.files, IsImageFile) + FlatMap(WalkStack(Children(v, false) + rest, false), ImagesIn())
    ensures |WalkStack(Children(v, false) + rest, false)| < |WalkStack([v] + rest, false)|
    ensures Children(v, false) == Locate(v.dir.subdirs, v.path)
  {
    WalkStepOutput(v, rest, false, ImagesIn());
  }

  /** What one more candidate name adds. */
  lemma ImagesUnderStep(root: Dir, names: seq<string>, p: Path)
    requires names != []
    ensures p in ImagesUnder(root, names) <==>
            p in ImagesUnder(root, names[..|names| - 1]) ||
            (FindChild(root.subdirs, names[|names| - 1]).Some? &&
             p in FlatMap(Walk(FindChild(root.subdirs, names[|names| - 1]).value, [names[|names| - 1]], false), ImagesIn()))
  {
  }

  /** `list_candidate_images(repo_root)`. */
  method ListCandidateImages(root: Dir) returns (out: seq<Path>)
    ensures out == CandidateImages(root)
  {
    out := [];
    for i := 0 to |IMAGE_DIR_CANDIDATES|
      invariant out == ImagesUnder(root, IMAGE_DIR_CANDIDATES[..i])
    {
      var d := IMAGE_DIR_CANDIDATES[i];
      assert IMAGE_DIR_CANDIDATES[..i + 1][..i] == IMAGE_DIR_CANDIDATES[..i];
      var p := FindChild(root.subdirs, d);
      if p.Some? {
        var found := WalkImages(p.value, [d]);
        out := out + found;
      }
    }
    assert IMAGE_DIR_CANDIDATES[..|IMAGE_DIR_CANDIDATES|] == IMAGE_DIR_CANDIDATES;
  }

  lemma {:induction false} FilesWhereMembers(at: Path, files: seq<string>, keep: string -> bool, p: Path)
    ensures p in FilesWhere(at, files, keep) <==>
            |p| == |at| + 1 && p[..|at|] == at && p[|at|] in files && keep(p[|at|])
  {
    if files != [] {
      var init := files[..|files| - 1];
      FilesWhereMembers(at, init, keep, p);
      assert files == init + [files[|files| - 1]];
      if |p| == |at| + 1 && p[..|at|] == at {
        assert p == at + [p[|at|]];
      }
    }
  }

  /** A directory contributes exactly its files whose lower-cased extension is accepted. */
  lemma ImageFilesMembers(at: Path, files: seq<string>, p: Path)
    ensures p in FilesWhere(at, files, IsImageFile) <==>
            |p| == |at| + 1 && p[..|at|] == at && p[|at|] in files && IsImageFile(p[|at|])
  {
    FilesWhereMembers(at, files, IsImageFile, p);
  }

  /**
    * Every candidate is an image file inside one of the candidate directories
    * of the root.
    */
  lemma {:induction false} CandidatesAreImages(root: Dir, names: seq<string>, p: Path)
    requires p in ImagesUnder(root, names)
    ensures 2 <= |p| && p[0] in names && IsImageFile(p[|p| - 1])
    ensures FindChild(root.subdirs, p[0]).Some?
  {
    var d := names[|names| - 1];
    var init := names[..|names| - 1];
    ImagesUnderStep(root, names, p);
    if p in ImagesUnder(root, init) {
      CandidatesAreImages(root, init, p);
      assert p[0] in init;
    } else {
      FoundImagesBelow(FindChild(root.subdirs, d).value, d, p);
    }
  }

  /** An image found by walking the candidate directory `d` lies below `d`. */
  lemma FoundImagesBelow(c: Dir, d: string, p: Path)
    requires p in FlatMap(Walk(c, [d], false), ImagesIn())
    ensures 2 <= |p| && p[0] == d && IsImageFile(p[|p| - 1])
  {
    var vs := Walk(c, [d], false);
    FlatMapMembers(vs, ImagesIn(), p);
    var v :| v in vs && p in ImagesIn()(v);
    WalkPathsBelow(c, [d], false);
    ImageFilesMembers(v.path, v.dir.files, p);
    assert p[0] == v.path[..1][0];
  }

  /**
    * Every image file in the tree of a candidate directory of the root is a
    * candidate.
    */
  lemma {:induction false} ImagesAreCandidates(root: Dir, names: seq<string>, k: nat, v: Located, f: string)
    requires k < |names| && FindChild(root.subdirs, names[k]).Some?
    requires v in Walk(FindChild(root.subdirs, names[k]).value, [names[k]], false)
    requires f in v.dir.files && IsImageFile(f)
    ensures v.path + [f] in ImagesUnder(root, names)
  {
    var init := names[..|names| - 1];
    ImagesUnderStep(root, names, v.path + [f]);
    if k < |names| - 1 {
      assert init[k] == names[k];
      ImagesAreCandidates(root, init, k, v, f);
    } else {
      var vs := Walk(FindChild(root.subdirs, names[k]).value, [names[k]], false);
      ImageFilesMembers(v.path, v.dir.files, v.path + [f]);
      assert (v.path + [f])[..|v.path|] == v.path;
      FlatMapMembers(vs, ImagesIn(), v.path + [f]);
    }
  }

  function AbsReal(x: real): (r: real)
    ensures r >= 0.0 && (r == x || r == -x)
  {
    if x < 0.0 then -x else x
  }

  /**
    * `score_image((w, h))`: lower is better. The distance of the aspect ratio
    * from 2:1, weighted by 1000, plus the distance of each side from 1280x640,
    * minus 5000 for an exact match; a degenerate size scores 1e9.
    */
  function Score(w: int, h: int): (s: real)
    ensures w <= 0 || h <= 0 ==> s == DEGENERATE_SCORE
    ensures w > 0 && h > 0 && w == TARGET_W && h == TARGET_H ==> s == -5000.0
    ensures w > 0 && h > 0 && !(w == TARGET_W && h == TARGET_H) ==> s >= 1.0
  {
    if w <= 0 || h <= 0 then DEGENERATE_SCORE
    else
      var ar := w as real / h as real;
      var arPenalty := AbsReal(ar - TARGET_AR) * 1000.0;
      var sizePenalty := AbsReal((w - TARGET_W) as real) + AbsReal((h - TARGET_H) as real);
      var exactBonus := if w == TARGET_W && h == TARGET_H then -5000.0 else 0.0;
      assert !(w == TARGET_W && h == TARGET_H) ==> sizePenalty >= 1.0;
      arPenalty + sizePenalty + exactBonus
  }

  /** The exact target size scores strictly better than every other size. */
  lemma TargetScoresBest(w: int, h: int)
    ensures Score(TARGET_W, TARGET_H) <= Score(w, h)
    ensures Score(w, h) == Score(TARGET_W, TARGET_H) <==> w == TARGET_W && h == TARGET_H
  {
  }

  /** The score of an image PIL can open. */
  function ScoreOf(sizeOf: map<Path, (int, int)>, p: Path): real
    requires p in sizeOf
  {
    Score(sizeOf[p].0, sizeOf[p].1)
  }

  /**
    * `paths[i]` is what the scan keeps: an openable image scoring below the
    * initial best, strictly better than every openable image before it (a tie
    * keeps the earlier one) and no worse than every one after it.
    */
  ghost predicate IsFirstBest(paths: seq<Path>, sizeOf: map<Path, (int, int)>, i: int)
  {
    && 0 <= i < |paths| && paths[i] in sizeOf && ScoreOf(sizeOf, paths[i]) < INITIAL_BEST
    && (forall j :: 0 <= j < i && paths[j] in sizeOf ==> ScoreOf(sizeOf, paths[j]) > ScoreOf(sizeOf, paths[i]))
    && (forall j :: i < j < |paths| && paths[j] in sizeOf ==> ScoreOf(sizeOf, paths[j]) >= ScoreOf(sizeOf, paths[i]))
  }

  /**
    * `pick_best_image(paths)`. Without PIL nothing is picked; otherwise the
    * first image with the lowest score, provided that score is below the
    * initial best.
    */
  method PickBestImage(paths: seq<Path>, sizeOf: map<Path, (int, int)>, pilAvailable: bool) returns (best: Option<Path>)
    ensures !pilAvailable ==> best == None
    ensures pilAvailable ==>
              (best.None? <==> forall j :: 0 <= j < |paths| && paths[j] in sizeOf ==> ScoreOf(sizeOf, paths[j]) >= INITIAL_BEST)
    ensures best.Some? ==> exists i :: IsFirstBest(paths, sizeOf, i) && best.value == paths[i]
  {
    if !pilAvailable {
      return None;
    }
    best := None;
    var bestScore := INITIAL_BEST;
    ghost var bi := -1;
    for k := 0 to |paths|
      invariant bi < 0 ==> best == None && bestScore == INITIAL_BEST &&
                           forall j :: 0 <= j < k && paths[j] in sizeOf ==> ScoreOf(sizeOf, paths[j]) >= INITIAL_BEST
      invariant bi >= 0 ==>
                  && bi < k && best == Some(paths[bi]) && paths[bi] in sizeOf
                  && bestScore == ScoreOf(sizeOf, paths[bi]) < INITIAL_BEST
                  && (forall j :: 0 <= j < bi && paths[j] in sizeOf ==> ScoreOf(sizeOf, paths[j]) > bestScore)
                  && (forall j :: bi < j < k && paths[j] in sizeOf ==> ScoreOf(sizeOf, paths[j]) >= bestScore)
    {
      var p := paths[k];
      if p in sizeOf {
        var (w, h) := sizeOf[p];
        var s := Score(w, h);
        if s < bestScore {
          bestScore := s;
          best := Some(p);
          bi := k;
        }
      }
    }
    if bi >= 0 {
      assert IsFirstBest(paths, sizeOf, bi);
    }
  }

  /** At most one position is the first best, so the pick is determined by the inputs. */
  lemma FirstBestUnique(paths: seq<Path>, sizeOf: map<Path, (int, int)>, i: int, i': int)
    requires IsFirstBest(paths, sizeOf, i) && IsFirstBest(paths, sizeOf, i')
    ensures i == i'
  {
  }

  /** When some candidate is exactly 1280x640, the pick is the first such candidate. */
  lemma ExactTargetIsPicked(paths: seq<Path>, sizeOf: map<Path, (int, int)>, i: int, k: int)
    requires IsFirstBest(paths, sizeOf, i)
    requires 0 <= k < |paths| && paths[k] in sizeOf && sizeOf[paths[k]] == (TARGET_W, TARGET_H)
    ensures sizeOf[paths[i]] == (TARGET_W, TARGET_H) && i <= k
  {
    var (w, h) := sizeOf[paths[i]];
    TargetScoresBest(w, h);
  }

  lemma MulNonNegative(a: real, b: real)
    requires a >= 0.0 && b >= 0.0
    ensures a * b >= 0.0
  {
  }

  /**
    * Every measurable image up to a million pixels a side scores below the
    * initial best, and so does a degenerate one: with such images, something
    * is always picked.
    */
  lemma ScoreBelowInitialBest(w: int, h: int)
    requires w <= 1_000_000 && h <= 1_000_000
    ensures Score(w, h) < INITIAL_BEST
  {
    if w > 0 && h > 0 {
      var wr, hr := w as real, h as real;
      var ar := wr / hr;
      assert ar >= 0.0;
      assert wr - ar == ar * (hr - 1.0);
      MulNonNegative(ar, hr - 1.0);
      assert TARGET_AR == 2.0;
      assert AbsReal(ar - TARGET_AR) <= ar + 2.0;
      assert wr <= 1_000_000.0;
      var pen := AbsReal(ar - TARGET_AR);
      assert ar <= wr;
      assert pen <= 1_000_002.0;
      assert pen * 1000.0 <= 1_000_002_000.0;
      assert AbsReal((w - TARGET_W) as real) <= 1_001_280.0;
      assert AbsReal((h - TARGET_H) as real) <= 1_000_640.0;
      assert Score(w, h) <= AbsReal(ar - TARGET_AR) * 1000.0 + AbsReal((w - TARGET_W) as real) + AbsReal((h - TARGET_H) as real);
    }
  }
}
