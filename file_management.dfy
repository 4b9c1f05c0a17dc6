/**
  * The orchestrator: review a photo (move it into a score bucket without ever
  * overwriting different bytes), undo a review, and list the next batch of
  * photos to review, archiving on the way those whose bytes already sit in a
  * bucket.
  */
module FileManagement {
  import opened Common
  import opened Paths
  import opened ReviewScores
  import opened Images
  import opened FsOps

  /** Permission bits given to created folders and moved photos (`0o775`). */
  const DirMode: int := 509

  /** At most this many photos are handed out per listing. */
  const BatchSize: nat := 20

  // ---------------------------------------------------------------------------
  // Review and undo: where the photo goes
  // ---------------------------------------------------------------------------

  /**
    * Where `move_file_prevent_overwrite_different_contents` puts `source` when it
    * is asked for `destination`: the destination itself if it is free or holds the
    * same bytes, a free numbered sibling otherwise, and nowhere if a read fails or
    * no sibling is free.
    */
  function MoveTarget(files: Files, dirs: set<Path>, source: Path, destination: Path): (r: Option<Path>)
    ensures r == Some(destination) <==> !Exists(files, dirs, destination) || SameBytes(files, source, destination)
    ensures r.Some? && r.value != destination ==> !Exists(files, dirs, r.value)
    ensures r.None? ==> Exists(files, dirs, destination) && !SameBytes(files, source, destination)
  {
    match CanSafelyOverwrite(files, dirs, source, destination)
    case Failure(_) => None
    case Success(safe) =>
      if safe then Some(destination)
      else
        match GetUniqueFilepath(files, dirs, destination)
        case Failure(_) => None
        case Success(unique) => Some(unique)
  }

  /** A free or byte-identical destination is used as is: no numbered file appears. */
  lemma MoveTargetFreeOrIdentical(files: Files, dirs: set<Path>, source: Path, destination: Path)
    requires source in files
    requires !Exists(files, dirs, destination) || SameBytes(files, source, destination)
    ensures MoveTarget(files, dirs, source, destination) == Some(destination)
    ensures MoveEntry(files, source, destination)[destination] == files[source]
  {
  }

  /** Different bytes at the destination: the destination is left alone and the photo
      goes to the first free numbered sibling in the same folder. */
  lemma MoveTargetDifferentContents(files: Files, dirs: set<Path>, source: Path, destination: Path)
    requires source in files && destination in files && files[source] != files[destination]
    ensures MoveTarget(files, dirs, source, destination).Some?
            <==> GetUniqueFilepath(files, dirs, destination).Success?
    ensures MoveTarget(files, dirs, source, destination).Some? ==>
      var target := MoveTarget(files, dirs, source, destination).value;
      && target == GetUniqueFilepath(files, dirs, destination).value
      && target != destination && target != source
      && !Exists(files, dirs, target)
      && Parent(target) == Parent(destination)
      && var after := MoveEntry(files, source, target);
         && destination in after && after[destination] == files[destination]
         && target in after && after[target] == files[source]
  {
    if GetUniqueFilepath(files, dirs, destination).Success? {
      UniquePathKeepsFolderAndExtension(files, dirs, destination);
    }
  }

  /** Whatever the gate decides, every byte sequence on disk before the move is
      still on disk after it. */
  lemma {:induction false} ReviewMoveLosesNothing(files: Files, dirs: set<Path>, source: Path, destination: Path)
    requires MoveTarget(files, dirs, source, destination).Some?
    ensures var after := MoveEntry(files, source, MoveTarget(files, dirs, source, destination).value);
      forall p :: p in files ==> files[p] in after.Values
  {
    var target := MoveTarget(files, dirs, source, destination).value;
    var after := MoveEntry(files, source, target);
    forall p | p in files ensures files[p] in after.Values {
      if p == source {
        assert after[target] == files[p];
      } else if p == target {
        // the destination was reused: it held the same bytes as the source
        assert target == destination && SameBytes(files, source, destination);
        assert after[target] == files[p];
      } else {
        assert after[p] == files[p];
      }
    }
  }

  /** Review onto a free destination followed by undo gives back exactly the files
      there were before. */
  lemma ReviewThenUndoRestores(files: Files, dirs: set<Path>, source: Path, destination: Path)
    requires source in files && !Exists(files, dirs, destination)
    ensures MoveTarget(files, dirs, source, destination) == Some(destination)
    ensures MoveEntry(MoveEntry(files, source, destination), destination, source) == files
  {
    MoveThereAndBack(files, source, destination);
  }

  /** A lone photo `albumX/good-photo.jpg` reviewed as Good moves to
      `002-good/albumX/good-photo.jpg` and is gone from the album. */
  lemma ReviewGoodPhotoScenario(root: Path, bytes: Bytes)
    ensures var source := root + ["albumX", "good-photo.jpg"];
      var destination := root + ["002-good", "albumX", "good-photo.jpg"];
      var files := map[source := bytes];
      var dirs := Prefixes(root + ["albumX"]);
      && MoveTarget(files, dirs, source, destination) == Some(destination)
      && destination in MoveEntry(files, source, destination)
      && source !in MoveEntry(files, source, destination)
  {
    var destination := root + ["002-good", "albumX", "good-photo.jpg"];
    var source := root + ["albumX", "good-photo.jpg"];
    assert destination != source by {
      assert destination[|root|] != source[|root|];
    }
    assert destination !in Prefixes(root + ["albumX"]);
  }

  /**
    * Undo looks only at the unnumbered destination. After a review that had to use
    * a numbered sibling, that path still holds the other photo, so undo moves the
    * other photo onto the reviewed photo's original path, and the reviewed photo
    * stays in the bucket under its numbered name.
    */
  lemma UndoAfterNumberedReview(files: Files, dirs: set<Path>, source: Path, destination: Path)
    requires source in files && destination in files && files[source] != files[destination]
    requires MoveTarget(files, dirs, source, destination).Some?
    ensures var target := MoveTarget(files, dirs, source, destination).value;
      var undone := MoveEntry(MoveEntry(files, source, target), destination, source);
      && source in undone && undone[source] == files[destination]
      && destination !in undone
      && target in undone && undone[target] == files[source]
  {
    MoveTargetDifferentContents(files, dirs, source, destination);
  }

  // ---------------------------------------------------------------------------
  // Which files are photos
  // ---------------------------------------------------------------------------

  const ImageExtensions: seq<string> := ["png", "jpg", "jpeg", "gif"]

  /** What the directory listing keeps: `Path::extension` is one of the four. */
  predicate IsImageName(name: Name)
  {
    Extension(name).Some? && Extension(name).value in ImageExtensions
  }

  predicate EndsWith(s: string, suffix: string)
  {
    |suffix| <= |s| && s[|s| - |suffix|..] == suffix
  }

  /** What the glob `*.{png,jpg,jpeg,gif}` of the folder scanner matches. */
  predicate IsGlobImageName(name: Name)
  {
    EndsWith(name, ".png") || EndsWith(name, ".jpg") || EndsWith(name, ".jpeg") || EndsWith(name, ".gif")
  }

  lemma EndsWithAppended(a: string, b: string)
    ensures EndsWith(a + b, b)
  {
    assert (a + b)[|a|..] == b;
  }

  lemma ExtensionSuffixIsGlob(name: Name, e: string)
    requires e in ImageExtensions && EndsWith(name, "." + e)
    ensures IsGlobImageName(name)
  {
    if e == "png" {
      assert "." + e == ".png";
    } else if e == "jpg" {
      assert "." + e == ".jpg";
    } else if e == "jpeg" {
      assert "." + e == ".jpeg";
    } else {
      assert "." + e == ".gif";
    }
  }

  /** Every photo the listing keeps also matches the scanner's glob. */
  lemma ListedNamesMatchGlob(name: Name)
    requires IsImageName(name)
    ensures IsGlobImageName(name)
  {
    StemAndExtension(name);
    var e := Extension(name).value;
    assert name == Stem(name) + ("." + e);
    EndsWithAppended(Stem(name), "." + e);
    ExtensionSuffixIsGlob(name, e);
  }

  /** The converse fails: `.png` matches the glob but has no extension, so the
      listing drops it. */
  lemma HiddenNameMatchesGlobOnly()
    ensures IsGlobImageName(".png") && !IsImageName(".png")
  {
    assert ".png"[0] == '.';
    assert LastDot(".png") == Some(0) by {
      assert ".png"[1..] == "png";
      assert ".png"[..3] == ".pn";
    }
  }

  /** The regular files directly in `folder` that the listing keeps. */
  function ImageChildren(files: Files, folder: Path): set<Path>
  {
    set p | p in files && IsChildOf(folder, p) && IsImageName(p[|p| - 1])
  }

  // ---------------------------------------------------------------------------
  // The folder scanner's filter
  // ---------------------------------------------------------------------------

  /** No folder between `root` and `p` (nor `p` itself) is named after a user-facing score. */
  predicate NoBucketBelow(root: Path, p: Path)
    requires root <= p
  {
    forall i :: |root| <= i < |p| ==> p[i] !in GetReviewScoresAsStr()
  }

  /** An entry the scanner stops at: a photo name below the root, outside every
      user-facing bucket. The `already_reviewed` bucket is not excluded. */
  predicate Reviewable(root: Path, p: Path)
  {
    root < p && IsGlobImageName(p[|p| - 1]) && NoBucketBelow(root, p)
  }

  /** No bucket folder name looks like a photo file name. */
  lemma ExtensionlessBucketNames(file: Name)
    requires IsGlobImageName(file)
    ensures file !in GetReviewScoresAsStr()
  {
    assert GetReviewScoresAsStr() == ["001-best", "002-good", "003-worst"];
  }

  /** The scanner does not skip the duplicates bucket: a photo archived into
      `already_reviewed` is offered for review again. */
  lemma ArchivedPhotosAreScanned(root: Path, album: Name, file: Name)
    requires IsGlobImageName(file) && album !in GetReviewScoresAsStr()
    ensures Reviewable(root, root + [AsStr(AlreadyReviewed), album, file])
  {
    UserFacingFolders(AlreadyReviewed);
    var p := root + [AsStr(AlreadyReviewed), album, file];
    assert p[..|root|] == root;
    forall i | |root| <= i < |p| ensures p[i] !in GetReviewScoresAsStr() {
      if i == |root| + 2 {
        assert p[i] == file;
        assert file !in GetReviewScoresAsStr() by {
          ExtensionlessBucketNames(file);
        }
      }
    }
  }

  /** `folder` is the parent of the first reviewable entry of the traversal. */
  ghost predicate FirstReviewableParent(root: Path, walk: seq<Path>, folder: Path)
  {
    exists k :: 0 <= k < |walk| && Reviewable(root, walk[k]) && folder == walk[k][..|walk[k]| - 1]
      && forall j :: 0 <= j < k ==> !Reviewable(root, walk[j])
  }

  /** The traversal visits exactly the entries below the root. */
  ghost predicate WalkCovers(files: Files, dirs: set<Path>, root: Path, walk: seq<Path>)
  {
    forall p :: p in walk <==> Exists(files, dirs, p) && root < p
  }

  // ---------------------------------------------------------------------------
  // Sorting the listing by file name
  // ---------------------------------------------------------------------------

  /** Entries of one folder in strictly increasing name order (which is the order of
      their full path strings, since these share the folder's prefix). */
  ghost predicate StrictlySortedByName(s: seq<Path>)
  {
    forall i, j :: 0 <= i < j < |s| ==> NameLess(Base(s[i]), Base(s[j]))
  }

  function InsertByName(s: seq<Path>, p: Path): (r: seq<Path>)
    ensures |r| == |s| + 1
    ensures forall q :: q in r <==> q in s || q == p
  {
    if s == [] then [p]
    else if NameLess(Base(p), Base(s[0])) then [p] + s
    else [s[0]] + InsertByName(s[1..], p)
  }

  lemma {:induction false} InsertByNameSorted(s: seq<Path>, p: Path)
    requires StrictlySortedByName(s)
    requires forall q :: q in s ==> Base(q) != Base(p)
    ensures StrictlySortedByName(InsertByName(s, p))
  {
    if s == [] {
    } else if NameLess(Base(p), Base(s[0])) {
      var r := [p] + s;
      forall i, j | 0 <= i < j < |r| ensures NameLess(Base(r[i]), Base(r[j])) {
        if i == 0 && j > 1 {
          NameLessTransitive(Base(p), Base(s[0]), Base(s[j - 1]));
        }
      }
    } else {
      NameLessTotal(Base(p), Base(s[0]));
      assert NameLess(Base(s[0]), Base(p));
      InsertByNameSorted(s[1..], p);
      var t := InsertByName(s[1..], p);
      var r := [s[0]] + t;
      forall i, j | 0 <= i < j < |r| ensures NameLess(Base(r[i]), Base(r[j])) {
        if i == 0 {
          assert r[j] in t;
          if r[j] != p {
            var k :| 0 <= k < |s[1..]| && s[1..][k] == r[j];
            assert s[k + 1] == r[j];
          }
        }
      }
    }
  }

  // ---------------------------------------------------------------------------
  // Archiving duplicates while listing
  // ---------------------------------------------------------------------------

  /** `root/<score folder>/<album>/<file>` for a photo at `.../<album>/<file>`. This is
      `DestinationPath` taken on the raw listed path rather than on an `Image`, so
      that the archiving functions below stay total over paths and need not read each
      entry back first; `BucketPathIsDestination` shows the two agree. */
  function BucketPath(root: Path, p: Path, score: ReviewScore): (r: Path)
    requires |p| >= 2
    ensures Base(r) == Base(p)
  {
    root + [AsStr(score), p[|p| - 2], p[|p| - 1]]
  }

  /** The bucket path is the destination that `Image` computes for the photo. */
  lemma BucketPathIsDestination(root: Path, p: Path, score: ReviewScore)
    requires FromFullPath(p, root).Success?
    ensures DestinationPath(FromFullPath(p, root).value, score) == BucketPath(root, p, score)
  {
  }

  /** Some user-facing bucket already holds a file with the photo's bytes under its name. */
  ghost predicate HasBucketCopy(files: Files, root: Path, p: Path)
  {
    |p| >= 2 && exists s :: s in GetReviewScores() && SameBytes(files, p, BucketPath(root, p, s))
  }

  /** The files after each of `ps`, in order, is renamed into the `already_reviewed`
      bucket. Photos always lie inside a folder; a shorter path is skipped. */
  function ArchiveAll(files: Files, root: Path, ps: seq<Path>): Files
  {
    if ps == [] then files
    else
      var q := ps[|ps| - 1];
      if |q| < 2 then ArchiveAll(files, root, ps[..|ps| - 1]) else
      MoveEntry(ArchiveAll(files, root, ps[..|ps| - 1]), q, BucketPath(root, q, AlreadyReviewed))
  }

  lemma ArchiveAllSnoc(files: Files, root: Path, ps: seq<Path>, q: Path)
    requires |q| >= 2
    ensures ArchiveAll(files, root, ps + [q])
            == MoveEntry(ArchiveAll(files, root, ps), q, BucketPath(root, q, AlreadyReviewed))
  {
    assert (ps + [q])[..|ps|] == ps;
  }

  /** Archiving touches only the archived photos and their bucket paths, which carry
      the photos' own file names: a path with another file name is left as it was. */
  lemma {:induction false} ArchiveLeavesOtherNames(files: Files, root: Path, ps: seq<Path>, x: Path)
    requires forall q :: q in ps ==> Base(q) != Base(x)
    ensures x in ArchiveAll(files, root, ps) <==> x in files
    ensures x in files ==> ArchiveAll(files, root, ps)[x] == files[x]
  {
    if ps != [] {
      var q := ps[|ps| - 1];
      if |q| >= 2 {
        assert Base(BucketPath(root, q, AlreadyReviewed)) == Base(q);
        assert x != q && x != BucketPath(root, q, AlreadyReviewed);
      }
      ArchiveLeavesOtherNames(files, root, ps[..|ps| - 1], x);
    }
  }

  /** The photo archived last keeps its bytes, now at its bucket path. */
  lemma LastArchivedMoved(files: Files, root: Path, folder: Path, ps: seq<Path>)
    requires forall p :: p in ps ==> p in files && IsChildOf(folder, p) && |p| >= 2
    requires forall i, j :: 0 <= i < j < |ps| ==> ps[i] != ps[j]
    requires ps != []
    ensures var last := ps[|ps| - 1];
      ArchiveAll(files, root, ps)
      == MoveEntry(ArchiveAll(files, root, ps[..|ps| - 1]), last, BucketPath(root, last, AlreadyReviewed))
    ensures var last := ps[|ps| - 1];
      last in ArchiveAll(files, root, ps[..|ps| - 1]) && ArchiveAll(files, root, ps[..|ps| - 1])[last] == files[last]
  {
    var last := ps[|ps| - 1];
    var init := ps[..|ps| - 1];
    forall p | p in init ensures Base(p) != Base(last) {
      var i :| 0 <= i < |init| && init[i] == p;
      assert ps[i] != ps[|ps| - 1];
      ChildrenDifferByName(folder, p, last);
    }
    ArchiveLeavesOtherNames(files, root, init, last);
  }

  /** After archiving distinct photos of one folder, each photo's bytes are in the
      `already_reviewed` bucket under its name, and its original path is gone unless
      the photo already lived at that bucket path. */
  lemma {:induction false} ArchivedPhotoMoved(files: Files, root: Path, folder: Path, ps: seq<Path>, q: Path)
    requires forall p :: p in ps ==> p in files && IsChildOf(folder, p) && |p| >= 2
    requires forall i, j :: 0 <= i < j < |ps| ==> ps[i] != ps[j]
    requires q in ps
    ensures BucketPath(root, q, AlreadyReviewed) in ArchiveAll(files, root, ps)
    ensures ArchiveAll(files, root, ps)[BucketPath(root, q, AlreadyReviewed)] == files[q]
    ensures q != BucketPath(root, q, AlreadyReviewed) ==> q !in ArchiveAll(files, root, ps)
  {
    var last := ps[|ps| - 1];
    var init := ps[..|ps| - 1];
    LastArchivedMoved(files, root, folder, ps);
    if q != last {
      var k :| 0 <= k < |ps| && ps[k] == q;
      assert init[k] == q;
      forall p | p in init ensures p in ps {
        var i :| 0 <= i < |init| && init[i] == p;
        assert ps[i] == p;
      }
      forall i, j | 0 <= i < j < |init| ensures init[i] != init[j] {
        assert init[i] == ps[i] && init[j] == ps[j];
      }
      ArchivedPhotoMoved(files, root, folder, init, q);
      ChildrenDifferByName(folder, q, last);
      assert Base(BucketPath(root, q, AlreadyReviewed)) != Base(last);
      assert BucketPath(root, q, AlreadyReviewed) != BucketPath(root, last, AlreadyReviewed);
    }
  }

  /** A bucket copy seen after some other photos were archived was already there before. */
  lemma BucketCopySurvivesArchiving(files: Files, root: Path, archived: seq<Path>, p: Path, s: ReviewScore)
    requires |p| >= 2 && s in GetReviewScores()
    requires forall q :: q in archived ==> Base(q) != Base(p)
    requires SameBytes(ArchiveAll(files, root, archived), p, BucketPath(root, p, s))
    ensures HasBucketCopy(files, root, p)
  {
    ArchiveLeavesOtherNames(files, root, archived, p);
    ArchiveLeavesOtherNames(files, root, archived, BucketPath(root, p, s));
  }

  /** The entries of `xs` whose flag in `mask` is set, in order. */
  function Select(xs: seq<Path>, mask: seq<bool>): (r: seq<Path>)
    requires |xs| == |mask|
    ensures |r| <= |xs|
    ensures forall q :: q in r ==> q in xs
  {
    if xs == [] then []
    else Select(xs[..|xs| - 1], mask[..|mask| - 1]) + (if mask[|mask| - 1] then [xs[|xs| - 1]] else [])
  }

  function Negate(mask: seq<bool>): (r: seq<bool>)
    ensures |r| == |mask| && forall i :: 0 <= i < |mask| ==> r[i] == !mask[i]
  {
    seq(|mask|, i requires 0 <= i < |mask| => !mask[i])
  }

  lemma SelectSnoc(xs: seq<Path>, mask: seq<bool>, x: Path, b: bool)
    requires |xs| == |mask|
    ensures Select(xs + [x], mask + [b]) == Select(xs, mask) + (if b then [x] else [])
    ensures Select(xs + [x], Negate(mask + [b])) == Select(xs, Negate(mask)) + (if b then [] else [x])
  {
    assert (xs + [x])[..|xs|] == xs;
    assert (mask + [b])[..|mask|] == mask;
    assert Negate(mask + [b])[..|mask|] == Negate(mask);
  }

  /** An entry whose flag is set is among the selected ones. */
  lemma {:induction false} SelectHas(xs: seq<Path>, mask: seq<bool>, j: nat)
    requires |xs| == |mask| && j < |xs| && mask[j]
    ensures xs[j] in Select(xs, mask)
  {
    var n := |xs| - 1;
    if j < n {
      SelectHas(xs[..n], mask[..n], j);
    }
  }

  /** Selecting from a list without repeats gives a list without repeats. */
  lemma {:induction false} SelectDistinct(xs: seq<Path>, mask: seq<bool>)
    requires |xs| == |mask|
    requires forall i, j :: 0 <= i < j < |xs| ==> xs[i] != xs[j]
    ensures forall i, j :: 0 <= i < j < |Select(xs, mask)| ==> Select(xs, mask)[i] != Select(xs, mask)[j]
  {
    if xs != [] {
      var n := |xs| - 1;
      var init := Select(xs[..n], mask[..n]);
      var r := Select(xs, mask);
      SelectDistinct(xs[..n], mask[..n]);
      assert xs[n] !in init by {
        assert xs[n] !in xs[..n];
      }
      assert r == init + (if mask[n] then [xs[n]] else []);
      forall i, j | 0 <= i < j < |r| ensures r[i] != r[j] {
        if j == |init| {
          assert r[i] == init[i] && init[i] in init && r[j] == xs[n];
        } else {
          assert r[i] == init[i] && r[j] == init[j];
          assert init[i] != init[j];
        }
      }
    }
  }

  /** A selected entry comes from a position whose flag is set. */
  lemma {:induction false} SelectFlagged(xs: seq<Path>, mask: seq<bool>, q: Path)
    requires |xs| == |mask| && q in Select(xs, mask)
    ensures exists j :: 0 <= j < |xs| && mask[j] && xs[j] == q
  {
    var n := |xs| - 1;
    if q in Select(xs[..n], mask[..n]) {
      SelectFlagged(xs[..n], mask[..n], q);
      var j :| 0 <= j < n && mask[..n][j] && xs[..n][j] == q;
      assert mask[j] && xs[j] == q;
    } else {
      assert mask[n] && xs[n] == q;
    }
  }

  /** Every entry of `paths` among the first `|keep|` whose flag is clear has left its
      folder between `before` and `after`: its bytes are in the `already_reviewed`
      bucket under its name, and its own path is gone unless it already lived at that
      bucket path. */
  ghost predicate DroppedMoved(before: Files, after: Files, root: Path, paths: seq<Path>, keep: seq<bool>)
  {
    && |keep| <= |paths|
    && forall j :: 0 <= j < |keep| && !keep[j] ==>
      && paths[j] in before && |paths[j]| >= 2
      && BucketPath(root, paths[j], AlreadyReviewed) in after
      && after[BucketPath(root, paths[j], AlreadyReviewed)] == before[paths[j]]
      && (paths[j] != BucketPath(root, paths[j], AlreadyReviewed) ==> paths[j] !in after)
  }

  /** Archiving the photos the filter dropped moves each of them out of its folder. */
  lemma DroppedPhotosArchived(files: Files, root: Path, folder: Path, paths: seq<Path>, keep: seq<bool>)
    requires |keep| <= |paths| && StrictlySortedByName(paths)
    requires forall p :: p in paths ==> IsChildOf(folder, p)
    requires forall j :: 0 <= j < |keep| && !keep[j] ==> HasBucketCopy(files, root, paths[j])
    ensures DroppedMoved(files, ArchiveAll(files, root, Select(paths[..|keep|], Negate(keep))), root, paths, keep)
  {
    var examined := paths[..|keep|];
    var dropped := Select(examined, Negate(keep));
    forall i, j | 0 <= i < j < |examined| ensures examined[i] != examined[j] {
      NameLessIrreflexive(Base(examined[i]));
    }
    SelectDistinct(examined, Negate(keep));
    forall p | p in dropped ensures p in files && IsChildOf(folder, p) && |p| >= 2 {
      SelectFlagged(examined, Negate(keep), p);
      var j :| 0 <= j < |keep| && Negate(keep)[j] && examined[j] == p;
      assert HasBucketCopy(files, root, paths[j]);
    }
    forall j | 0 <= j < |keep| && !keep[j]
      ensures var after := ArchiveAll(files, root, dropped);
        && paths[j] in files && |paths[j]| >= 2
        && BucketPath(root, paths[j], AlreadyReviewed) in after
        && after[BucketPath(root, paths[j], AlreadyReviewed)] == files[paths[j]]
        && (paths[j] != BucketPath(root, paths[j], AlreadyReviewed) ==> paths[j] !in after)
    {
      SelectHas(examined, Negate(keep), j);
      ArchivedPhotoMoved(files, root, folder, dropped, paths[j]);
    }
  }

  /** The state of the lazy filter after examining the first `|keep|` entries of
      `paths`: the kept ones, read back as images, in order; at most a batch of them;
      and the filter was still hungry when it examined the last one. */
  ghost predicate Batch(root: Path, paths: seq<Path>, keep: seq<bool>, images: seq<Image>)
  {
    && |keep| <= |paths|
    && |images| == |Select(paths[..|keep|], keep)| <= BatchSize
    && (forall n :: 0 <= n < |images| ==> FromFullPath(Select(paths[..|keep|], keep)[n], root) == Success(images[n]))
    && (|keep| > 0 ==> |Select(paths[..|keep| - 1], keep[..|keep| - 1])| < BatchSize)
  }

  /** Examining one more entry: keeping it appends its image, dropping it appends it
      to the archived entries. */
  lemma BatchStep(root: Path, paths: seq<Path>, keep: seq<bool>, images: seq<Image>, image: Image, b: bool)
    requires Batch(root, paths, keep, images) && |keep| < |paths| && |images| < BatchSize
    requires FromFullPath(paths[|keep|], root) == Success(image)
    ensures Batch(root, paths, keep + [b], if b then images + [image] else images)
    ensures Select(paths[..|keep| + 1], Negate(keep + [b]))
            == Select(paths[..|keep|], Negate(keep)) + (if b then [] else [paths[|keep|]])
  {
    var i := |keep|;
    var keep' := keep + [b];
    SelectSnoc(paths[..i], keep, paths[i], b);
    assert paths[..i + 1] == paths[..i] + [paths[i]];
    assert keep'[..i] == keep;
    var kept := Select(paths[..i], keep);
    var kept' := Select(paths[..i + 1], keep');
    assert kept' == kept + (if b then [paths[i]] else []);
    var images' := if b then images + [image] else images;
    forall n | 0 <= n < |images'| ensures FromFullPath(kept'[n], root) == Success(images'[n]) {
      if n < |images| {
        assert kept'[n] == kept[n] && images'[n] == images[n];
      }
    }
  }

  /** An entry archived at step `|keep|` had a copy in a bucket before anything moved:
      the entries archived earlier carry other names, so the copy was already there. */
  lemma BucketCopyStep(start: Files, root: Path, paths: seq<Path>, keep: seq<bool>, before: Files, excluded: bool)
    requires |keep| < |paths| && |paths[|keep|]| >= 2 && StrictlySortedByName(paths)
    requires before == ArchiveAll(start, root, Select(paths[..|keep|], Negate(keep)))
    requires forall j :: 0 <= j < |keep| && !keep[j] ==> HasBucketCopy(start, root, paths[j])
    requires excluded ==>
      exists s :: s in GetReviewScores() && SameBytes(before, paths[|keep|], BucketPath(root, paths[|keep|], s))
    ensures forall j :: 0 <= j < |keep| + 1 && !(keep + [!excluded])[j] ==> HasBucketCopy(start, root, paths[j])
  {
    var i := |keep|;
    var path := paths[i];
    var keep' := keep + [!excluded];
    if excluded {
      var s :| s in GetReviewScores() && SameBytes(before, path, BucketPath(root, path, s));
      EarlierNamesDiffer(paths, i);
      BucketCopySurvivesArchiving(start, root, Select(paths[..i], Negate(keep)), path, s);
    }
    forall j | 0 <= j < i + 1 && !keep'[j] ensures HasBucketCopy(start, root, paths[j]) {
      if j < i {
        assert keep'[j] == keep[j];
      }
    }
  }

  /** Everything the lazy filter has established after examining `|keep|` entries,
      starting from the files `start`: the batch so far, a bucket copy for every entry
      it dropped, and the dropped entries archived in order. */
  ghost predicate Examined(start: Files, root: Path, paths: seq<Path>, keep: seq<bool>,
                           images: seq<Image>, files: Files)
  {
    && Batch(root, paths, keep, images)
    && (forall j :: 0 <= j < |keep| && !keep[j] ==> HasBucketCopy(start, root, paths[j]))
    && files == ArchiveAll(start, root, Select(paths[..|keep|], Negate(keep)))
  }

  /** One round of the filter: the entry at `|keep|` is read back as `image`; it is
      dropped when it was archived (moved into `already_reviewed` after a bucket copy
      with the same bytes was found) and kept when nothing moved. */
  lemma ExamineStep(start: Files, root: Path, paths: seq<Path>, keep: seq<bool>, images: seq<Image>,
                    image: Image, before: Files, after: Files, excluded: bool)
    requires Examined(start, root, paths, keep, images, before) && StrictlySortedByName(paths)
    requires |keep| < |paths| && |images| < BatchSize
    requires FromFullPath(paths[|keep|], root) == Success(image)
    requires !excluded ==> after == before
    requires excluded ==>
      && after == MoveEntry(before, image.fullPath, DestinationPath(image, AlreadyReviewed))
      && exists s :: s in GetReviewScores() && SameBytes(before, image.fullPath, DestinationPath(image, s))
    ensures Examined(start, root, paths, keep + [!excluded], if excluded then images else images + [image], after)
  {
    var path := paths[|keep|];
    BatchStep(root, paths, keep, images, image, !excluded);
    BucketPathIsDestination(root, path, AlreadyReviewed);
    if excluded {
      var s :| s in GetReviewScores() && SameBytes(before, path, DestinationPath(image, s));
      BucketPathIsDestination(root, path, s);
    }
    var archived := Select(paths[..|keep|], Negate(keep));
    if excluded {
      ArchiveAllSnoc(start, root, archived, path);
    } else {
      assert archived + [] == archived;
    }
    BucketCopyStep(start, root, paths, keep, before, excluded);
  }

  /** In a strictly sorted listing, the entries before position `i` have other names. */
  lemma EarlierNamesDiffer(paths: seq<Path>, i: nat)
    requires StrictlySortedByName(paths) && i < |paths|
    ensures forall q :: q in paths[..i] ==> Base(q) != Base(paths[i])
  {
    forall q | q in paths[..i] ensures Base(q) != Base(paths[i]) {
      var j :| 0 <= j < i && paths[j] == q;
      NameLessIrreflexive(Base(q));
    }
  }

  // ---------------------------------------------------------------------------
  // What the listing hands to the client
  // ---------------------------------------------------------------------------

  /** The projection of `get_photos_to_review`: one entry per image, in order, with the
      client URL `/media/<relative path>` and the image's folder as album. */
  function ToPhotosToReview(baseUrl: string, count: nat, images: seq<Image>): (r: PhotosToReview)
    requires forall i :: 0 <= i < |images| ==> images[i].fullPath != []
    ensures r.baseUrl == baseUrl && r.folderImageCount == count && |r.photos| == |images|
    ensures forall i :: 0 <= i < |images| ==>
      && r.photos[i].url == "/media/" + Join(images[i].relativePath)
      && r.photos[i].album == PathString(Parent(images[i].fullPath).value)
    ensures r.folderName == if images == [] then "unknown" else images[0].albumName
  {
    var photos := seq(|images|, i requires 0 <= i < |images| =>
      ImageToReview("/media/" + Join(images[i].relativePath),
                    PathString(images[i].fullPath[..|images[i].fullPath| - 1])));
    // The folder name is the first image's album; album names are never empty.
    PhotosToReview(baseUrl, photos, count, if images == [] then "unknown" else images[0].albumName)
  }

  // ---------------------------------------------------------------------------
  // The file manager
  // ---------------------------------------------------------------------------

  /** Between `before` and `after` no recorded mode was dropped, and every mode that
      was set or changed is `DirMode`, on the folder `dir` or on a path directly in it. */
  ghost predicate ModesSetIn(before: map<Path, int>, after: map<Path, int>, dir: Path)
  {
    && before.Keys <= after.Keys
    && forall p :: p in after ==>
         (p in before && after[p] == before[p]) || (after[p] == DirMode && (p == dir || IsChildOf(dir, p)))
  }

  lemma ModesSetInOne(before: map<Path, int>, dir: Path, p: Path)
    requires p == dir || IsChildOf(dir, p)
    ensures ModesSetIn(before, before[p := DirMode], dir)
  {
  }

  lemma ModesSetInTrans(a: map<Path, int>, b: map<Path, int>, c: map<Path, int>, dir: Path)
    requires ModesSetIn(a, b, dir) && ModesSetIn(b, c, dir)
    ensures ModesSetIn(a, c, dir)
  {
  }

  /** Between two states of the disk, folders were only added, each an ancestor of
      `dir` (or `dir` itself), and permission bits changed only as `ModesSetIn` allows. */
  ghost predicate TouchedOnly(dirs0: set<Path>, modes0: map<Path, int>,
                              dirs: set<Path>, modes: map<Path, int>, dir: Path)
  {
    dirs0 <= dirs <= dirs0 + Prefixes(dir) && ModesSetIn(modes0, modes, dir)
  }

  lemma TouchedOnlyTrans(dirs0: set<Path>, modes0: map<Path, int>, dirs1: set<Path>, modes1: map<Path, int>,
                         dirs2: set<Path>, modes2: map<Path, int>, dir: Path)
    requires TouchedOnly(dirs0, modes0, dirs1, modes1, dir) && TouchedOnly(dirs1, modes1, dirs2, modes2, dir)
    ensures TouchedOnly(dirs0, modes0, dirs2, modes2, dir)
  {
    ModesSetInTrans(modes0, modes1, modes2, dir);
  }

  /** A `rename_with_create_dir_all` into `dir` touches only `dir` and its ancestors. */
  lemma RenameTouchesOnly(dirs0: set<Path>, modes0: map<Path, int>, dirs1: set<Path>, modes1: map<Path, int>, dir: Path)
    requires dirs0 <= dirs1 <= dirs0 + Prefixes(dir)
    requires modes1 == modes0 || modes1 == modes0[dir := DirMode]
    ensures TouchedOnly(dirs0, modes0, dirs1, modes1, dir)
  {
    if modes1 != modes0 {
      ModesSetInOne(modes0, dir, dir);
    }
  }

  /** A `chmod` of a path directly in `dir` keeps the changes within `dir`. */
  lemma ChmodTouchesOnly(dirs0: set<Path>, modes0: map<Path, int>, dirs1: set<Path>, modes1: map<Path, int>,
                         modes2: map<Path, int>, dir: Path, p: Path)
    requires TouchedOnly(dirs0, modes0, dirs1, modes1, dir) && IsChildOf(dir, p)
    requires modes2 == modes1 || modes2 == modes1[p := DirMode]
    ensures TouchedOnly(dirs0, modes0, dirs1, modes2, dir)
  {
    if modes2 != modes1 {
      ModesSetInOne(modes1, dir, p);
      ModesSetInTrans(modes0, modes1, modes2, dir);
    }
  }

  /** `root/already_reviewed/<album>`: where the listing archives the photos of an album. */
  function ArchiveFolder(root: Path, album: Name): (r: Path)
    ensures root < r && r[|root|] == AsStr(AlreadyReviewed) && Base(r) == album
  {
    root + [AsStr(AlreadyReviewed), album]
  }

  class FileManager {
    /** The media root, below which albums and score buckets live. */
    const rootDir: Path
    /** The disk the manager works on. */
    const fs: FileSystem

    ghost predicate Valid()
      reads fs
    {
      |rootDir| >= 1 && fs.Valid()
    }

    constructor (mediaPath: Path, fs: FileSystem)
      requires |mediaPath| >= 1 && fs.Valid()
      ensures Valid() && rootDir == mediaPath && this.fs == fs
    {
      rootDir := mediaPath;
      this.fs := fs;
    }

    /**
      * `review_photo`: moves the photo into its score bucket, or to a numbered
      * sibling there when the bucket already holds different bytes under its name.
      * The returned review is built from the unnumbered destination even when a
      * numbered one was used.
      */
    method ReviewPhoto(review: PhotoReview) returns (r: Result<PhotoReview, Error>)
      requires Valid()
      requires review.image.fullPath != [] && rootDir <= review.image.rootDir
      modifies fs
      ensures Valid()
      ensures !Exists(old(fs.files), old(fs.dirs), review.image.fullPath)
              ==> r == Failure(PhotoNotFound) && unchanged(fs)
      ensures var source := review.image.fullPath;
        var target := MoveTarget(old(fs.files), old(fs.dirs), source, ReviewDestinationPath(review));
        && (r.Success? ==> target.Some? && fs.files == MoveEntry(old(fs.files), source, target.value))
        && (fs.files == old(fs.files) || (target.Some? && fs.files == MoveEntry(old(fs.files), source, target.value)))
      ensures r.Success? ==>
        && FromFullPath(ReviewDestinationPath(review), rootDir).Success?
        && r.value == PhotoReview(FromFullPath(ReviewDestinationPath(review), rootDir).value, review.score)
      ensures TouchedOnly(old(fs.dirs), old(fs.modes), fs.dirs, fs.modes,
                          ReviewDestinationPath(review)[..|ReviewDestinationPath(review)| - 1])
    {
      if !Exists(fs.files, fs.dirs, review.image.fullPath) {
        return Failure(PhotoNotFound);
      }
      var destination := ReviewDestinationPath(review);
      var moved := MoveFilePreventOverwriteDifferentContents(review.image.fullPath, destination);
      if moved.Fail? {
        return Failure(moved.error);
      }
      assert destination[..|rootDir|] == rootDir;
      r := Success(PhotoReview(FromFullPath(destination, rootDir).value, review.score));
    }

    /** Moves `source` to `destination`, or to a free numbered sibling of it when the
        destination holds different bytes; then sets the moved file's permission bits. */
    method MoveFilePreventOverwriteDifferentContents(source: Path, destination: Path) returns (r: Outcome<Error>)
      requires Valid()
      modifies fs
      ensures Valid()
      ensures var target := MoveTarget(old(fs.files), old(fs.dirs), source, destination);
        && (target.None? ==> r.Fail? && fs.files == old(fs.files))
        && (r.Pass? ==> target.Some? && fs.files == MoveEntry(old(fs.files), source, target.value)
                        && target.value in fs.modes && fs.modes[target.value] == DirMode)
        && (fs.files == old(fs.files) || (target.Some? && fs.files == MoveEntry(old(fs.files), source, target.value)))
      ensures destination == [] ==> fs.dirs == old(fs.dirs) && fs.modes == old(fs.modes)
      ensures destination != [] ==>
        TouchedOnly(old(fs.dirs), old(fs.modes), fs.dirs, fs.modes, destination[..|destination| - 1])
    {
      var finalDestination := destination;
      var safe := CanSafelyOverwrite(fs.files, fs.dirs, source, destination);
      if safe.Failure? {
        return Fail(safe.error);
      }
      if !safe.value {
        var unique := GetUniqueFilepath(fs.files, fs.dirs, destination);
        if unique.Failure? {
          return Fail(unique.error);
        }
        UniquePathKeepsFolderAndExtension(fs.files, fs.dirs, destination);
        finalDestination := unique.value;
      }
      // a numbered sibling lives in the destination's folder
      ghost var parent := if destination == [] then [] else destination[..|destination| - 1];
      assert destination == [] <==> finalDestination == [];
      assert destination != [] ==> finalDestination[..|finalDestination| - 1] == parent;
      ghost var dirs0, modes0 := fs.dirs, fs.modes;
      r := fs.RenameWithCreateDirAll(source, finalDestination, DirMode);
      if destination != [] {
        RenameTouchesOnly(dirs0, modes0, fs.dirs, fs.modes, parent);
      }
      if r.Fail? {
        return;
      }
      ghost var modes1 := fs.modes;
      r := fs.Chmod(finalDestination, DirMode);
      ChmodTouchesOnly(dirs0, modes0, fs.dirs, modes1, fs.modes, parent, finalDestination);
    }

    /** `undo`: moves whatever sits at the unnumbered bucket path back to the photo's
        original path. */
    method Undo(review: PhotoReview) returns (r: Outcome<Error>)
      requires Valid() && review.image.fullPath != []
      modifies fs
      ensures Valid()
      ensures !Exists(old(fs.files), old(fs.dirs), ReviewDestinationPath(review))
              ==> r == Fail(PhotoNotFound) && unchanged(fs)
      ensures r.Pass? ==> && ReviewDestinationPath(review) in old(fs.files)
                          && fs.files == MoveEntry(old(fs.files), ReviewDestinationPath(review), review.image.fullPath)
                          && review.image.fullPath in fs.files
                          && (ReviewDestinationPath(review) != review.image.fullPath
                              ==> ReviewDestinationPath(review) !in fs.files)
      ensures r.Fail? ==> fs.files == old(fs.files)
      ensures var folder := review.image.fullPath[..|review.image.fullPath| - 1];
        && old(fs.dirs) <= fs.dirs <= old(fs.dirs) + Prefixes(folder)
        && (fs.modes == old(fs.modes) || fs.modes == old(fs.modes)[folder := DirMode])
    {
      var destination := ReviewDestinationPath(review);
      if !Exists(fs.files, fs.dirs, destination) {
        return Fail(PhotoNotFound);
      }
      r := fs.RenameWithCreateDirAll(destination, review.image.fullPath, DirMode);
    }

    /** `find_next_folder_path_with_images_to_review`: the folder of the first entry of
        the traversal that is a photo outside the user-facing buckets. */
    method FindNextFolderPathWithImagesToReview(walk: seq<Path>) returns (r: Result<Path, Error>)
      ensures r.Failure? <==> forall k :: 0 <= k < |walk| ==> !Reviewable(rootDir, walk[k])
      ensures r.Failure? ==> r.error == NoFoldersToReview
      ensures r.Success? ==> FirstReviewableParent(rootDir, walk, r.value)
      ensures r.Success? ==> rootDir <= r.value && NoBucketBelow(rootDir, r.value)
    {
      var k := 0;
      while k < |walk|
        invariant 0 <= k <= |walk|
        invariant forall j :: 0 <= j < k ==> !Reviewable(rootDir, walk[j])
      {
        var entry := walk[k];
        if Reviewable(rootDir, entry) {
          return Success(entry[..|entry| - 1]);
        }
        k := k + 1;
      }
      return Failure(NoFoldersToReview);
    }

    /** `fs::read_dir` of the folder, keeping photo files, sorted by name. */
    method ListImageFiles(folder: Path) returns (r: Result<seq<Path>, Error>)
      requires Valid()
      ensures r.Failure? ==> r.error == IoError
      ensures r.Success? ==> && (forall p :: p in r.value <==> p in ImageChildren(fs.files, folder))
                             && StrictlySortedByName(r.value)
                             && |r.value| == |ImageChildren(fs.files, folder)|
    {
      var osAccepts: bool := *;
      if !osAccepts || folder !in fs.dirs {
        return Failure(IoError);
      }
      var all := ImageChildren(fs.files, folder);
      var pending := all;
      var sorted: seq<Path> := [];
      while pending != {}
        invariant pending <= all
        invariant forall p :: p in all <==> p in sorted || p in pending
        invariant forall p :: p in sorted ==> p !in pending
        invariant |sorted| + |pending| == |all|
        invariant StrictlySortedByName(sorted)
        decreases |pending|
      {
        var p :| p in pending;
        forall q | q in sorted ensures Base(q) != Base(p) {
          ChildrenDifferByName(folder, q, p);
        }
        InsertByNameSorted(sorted, p);
        sorted := InsertByName(sorted, p);
        pending := pending - {p};
      }
      r := Success(sorted);
    }

    /** The filter step of `find_image_files` for one photo: looks for a copy with the
        same bytes in each user-facing bucket, in score order, and on a match renames
        the photo into `already_reviewed`. The photo is excluded only when that rename
        succeeds; a failed rename goes on to the next score. */
    method ExcludeIfAlreadyReviewed(image: Image) returns (excluded: bool)
      requires Valid() && image.fullPath != []
      modifies fs
      ensures Valid()
      ensures !excluded ==> fs.files == old(fs.files)
      ensures excluded ==>
        && fs.files == MoveEntry(old(fs.files), image.fullPath, DestinationPath(image, AlreadyReviewed))
        && exists s :: s in GetReviewScores() && SameBytes(old(fs.files), image.fullPath, DestinationPath(image, s))
      ensures TouchedOnly(old(fs.dirs), old(fs.modes), fs.dirs, fs.modes, ArchiveFolder(image.rootDir, image.albumName))
    {
      var scores := GetReviewScores();
      ghost var archive := ArchiveFolder(image.rootDir, image.albumName);
      assert DestinationPath(image, AlreadyReviewed)[..|DestinationPath(image, AlreadyReviewed)| - 1] == archive;
      excluded := false;
      var k := 0;
      while k < |scores| && !excluded
        invariant Valid()
        invariant 0 <= k <= |scores|
        invariant !excluded ==> fs.files == old(fs.files)
        invariant excluded ==>
          && fs.files == MoveEntry(old(fs.files), image.fullPath, DestinationPath(image, AlreadyReviewed))
          && exists s :: s in scores && SameBytes(old(fs.files), image.fullPath, DestinationPath(image, s))
        invariant TouchedOnly(old(fs.dirs), old(fs.modes), fs.dirs, fs.modes, archive)
      {
        // a read error during the comparison counts as "not equal"
        if HaveEqualContents(fs.files, fs.dirs, image.fullPath, DestinationPath(image, scores[k])) == Success(true) {
          ghost var dirs0, modes0 := fs.dirs, fs.modes;
          var moved := fs.RenameWithCreateDirAll(image.fullPath, DestinationPath(image, AlreadyReviewed), DirMode);
          RenameTouchesOnly(dirs0, modes0, fs.dirs, fs.modes, archive);
          TouchedOnlyTrans(old(fs.dirs), old(fs.modes), dirs0, modes0, fs.dirs, fs.modes, archive);
          excluded := moved.Pass?;
        }
        k := k + 1;
      }
    }

    /** The lazy `filter(...).take(20)` of `find_image_files` over the sorted listing of
        `folder`: `keep` records, for each photo examined, whether it was kept. */
    method TakeBatch(ghost folder: Path, paths: seq<Path>) returns (images: seq<Image>, ghost keep: seq<bool>)
      requires Valid() && rootDir <= folder
      requires forall p :: p in paths ==> IsChildOf(folder, p)
      requires StrictlySortedByName(paths)
      modifies fs
      ensures Valid()
      ensures Batch(rootDir, paths, keep, images)
      ensures |keep| < |paths| ==> |images| == BatchSize
      ensures forall j :: 0 <= j < |keep| && !keep[j] ==> HasBucketCopy(old(fs.files), rootDir, paths[j])
      ensures fs.files == ArchiveAll(old(fs.files), rootDir, Select(paths[..|keep|], Negate(keep)))
      ensures DroppedMoved(old(fs.files), fs.files, rootDir, paths, keep)
      ensures TouchedOnly(old(fs.dirs), old(fs.modes), fs.dirs, fs.modes, ArchiveFolder(rootDir, Base(folder)))
    {
      images, keep := [], [];
      ghost var start := fs.files;
      ghost var archive := ArchiveFolder(rootDir, Base(folder));
      var i := 0;
      while i < |paths| && |images| < BatchSize
        invariant Valid()
        invariant i == |keep| && Examined(start, rootDir, paths, keep, images, fs.files)
        invariant TouchedOnly(old(fs.dirs), old(fs.modes), fs.dirs, fs.modes, archive)
      {
        var path := paths[i];
        assert IsChildOf(folder, path);
        assert path[..|rootDir|] == rootDir by {
          assert path[..|folder|] == folder;
        }
        var image := FromFullPath(path, rootDir).value;
        assert ArchiveFolder(image.rootDir, image.albumName) == archive;
        ghost var before := fs.files;
        ghost var dirs0, modes0 := fs.dirs, fs.modes;
        var excluded := ExcludeIfAlreadyReviewed(image);
        TouchedOnlyTrans(old(fs.dirs), old(fs.modes), dirs0, modes0, fs.dirs, fs.modes, archive);
        ExamineStep(start, rootDir, paths, keep, images, image, before, fs.files, excluded);
        keep := keep + [!excluded];
        if !excluded {
          images := images + [image];
        }
        i := i + 1;
      }
      DroppedPhotosArchived(start, rootDir, folder, paths, keep);
    }

    /**
      * `find_image_files`: picks the folder, lists and counts its photos, then walks
      * the sorted list lazily until 20 photos are kept, archiving on the way every
      * photo whose bytes already sit in a user-facing bucket.
      */
    method FindImageFiles(walk: seq<Path>)
      returns (r: Result<(nat, seq<Image>), Error>,
               ghost folder: Path, ghost listing: seq<Path>, ghost keep: seq<bool>)
      requires Valid()
      modifies fs
      ensures Valid()
      ensures r == Failure(NoFoldersToReview) <==> forall k :: 0 <= k < |walk| ==> !Reviewable(rootDir, walk[k])
      ensures r.Failure? ==> fs.files == old(fs.files)
      ensures r.Success? ==>
        && FirstReviewableParent(rootDir, walk, folder)
        && (forall p :: p in listing <==> p in ImageChildren(old(fs.files), folder))
        && StrictlySortedByName(listing)
        && r.value.0 == |listing| == |ImageChildren(old(fs.files), folder)|
        && Batch(rootDir, listing, keep, r.value.1)
        && (|keep| < |listing| ==> |r.value.1| == BatchSize)
        && (forall j :: 0 <= j < |keep| && !keep[j] ==> HasBucketCopy(old(fs.files), rootDir, listing[j]))
        && fs.files == ArchiveAll(old(fs.files), rootDir, Select(listing[..|keep|], Negate(keep)))
        && DroppedMoved(old(fs.files), fs.files, rootDir, listing, keep)
        && TouchedOnly(old(fs.dirs), old(fs.modes), fs.dirs, fs.modes, ArchiveFolder(rootDir, Base(folder)))
      ensures r.Failure? ==> fs.dirs == old(fs.dirs) && fs.modes == old(fs.modes)
    {
      folder, listing, keep := [], [], [];
      var found := FindNextFolderPathWithImagesToReview(walk);
      if found.Failure? {
        return Failure(found.error), folder, listing, keep;
      }
      var dir := found.value;
      folder := dir;
      var listed := ListImageFiles(dir);
      if listed.Failure? {
        return Failure(listed.error), folder, listing, keep;
      }
      var paths := listed.value;
      listing := paths;
      var images;
      images, keep := TakeBatch(dir, paths);
      r := Success((|paths|, images));
    }

    /** `get_photos_to_review`: the listing projected for the client, with the public
        base URL passed in. */
    method GetPhotosToReview(walk: seq<Path>, baseUrl: string)
      returns (r: Result<PhotosToReview, Error>, ghost folder: Path, ghost images: seq<Image>,
               ghost listing: seq<Path>, ghost keep: seq<bool>)
      requires Valid() && WalkCovers(fs.files, fs.dirs, rootDir, walk)
      modifies fs
      ensures Valid()
      ensures r == Failure(NoFoldersToReview)
              <==> forall p :: Exists(old(fs.files), old(fs.dirs), p) && rootDir < p ==> !Reviewable(rootDir, p)
      ensures r.Failure? ==> fs.files == old(fs.files) && fs.dirs == old(fs.dirs) && fs.modes == old(fs.modes)
      ensures r.Success? ==>
        && FirstReviewableParent(rootDir, walk, folder)
        && (forall p :: p in listing <==> p in ImageChildren(old(fs.files), folder))
        && StrictlySortedByName(listing)
        && Batch(rootDir, listing, keep, images)
        && (|keep| < |listing| ==> |images| == BatchSize)
        && (forall j :: 0 <= j < |keep| && !keep[j] ==> HasBucketCopy(old(fs.files), rootDir, listing[j]))
        && fs.files == ArchiveAll(old(fs.files), rootDir, Select(listing[..|keep|], Negate(keep)))
        && DroppedMoved(old(fs.files), fs.files, rootDir, listing, keep)
        && TouchedOnly(old(fs.dirs), old(fs.modes), fs.dirs, fs.modes, ArchiveFolder(rootDir, Base(folder)))
        && (forall n :: 0 <= n < |images| ==> images[n].fullPath != [])
        && r.value == ToPhotosToReview(baseUrl, |ImageChildren(old(fs.files), folder)|, images)
    {
      var found;
      found, folder, listing, keep := FindImageFiles(walk);
      images := [];
      if found.Failure? {
        return Failure(found.error), folder, images, listing, keep;
      }
      var batch := found.value.1;
      images := batch;
      forall n | 0 <= n < |batch| ensures batch[n].fullPath != [] {
        assert FromFullPath(Select(listing[..|keep|], keep)[n], rootDir) == Success(batch[n]);
      }
      r := Success(ToPhotosToReview(baseUrl, found.value.0, batch));
    }
  }
}
