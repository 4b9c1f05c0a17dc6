/**
  * Identity of one photo: where it lives, which album it belongs to, and where
  * each score would put it. Everything here is a pure function of paths.
  */
module Images {
  import opened Common
  import opened Paths
  import opened ReviewScores

  /** `relativePath` is kept as the caller gave it; `fullPath` is derived from it. */
  datatype Image = Image(relativePath: Path, rootDir: Path, fullPath: Path, albumName: Name)

  /** An image paired with the score it is given (or was given, for undo). */
  datatype PhotoReview = PhotoReview(image: Image, score: ReviewScore)

  /** One photo as the client sees it: its URL and the folder it lives in. */
  datatype ImageToReview = ImageToReview(url: string, album: string)

  /** A batch of photos to review, with the number of photos in their folder. */
  datatype PhotosToReview = PhotosToReview(baseUrl: string, photos: seq<ImageToReview>,
                                           folderImageCount: nat, folderName: string)

  /** The client-facing prefix every relative path starts with (`/media/...`). */
  const MediaPrefix: Name := "media"

  /**
    * `Image::new` from a client path such as `/media/albumX/x.jpg`: the full path
    * is the root followed by the client path without its prefix, and the album is
    * the name of the client path's parent folder. The program panics where this
    * returns `InvalidPath`.
    */
  function New(relativePath: Path, rootDir: Path): (r: Result<Image, Error>)
    ensures r.Success? <==> |relativePath| >= 2 && relativePath[0] == MediaPrefix
    ensures r.Failure? ==> r.error == InvalidPath
    ensures r.Success? ==>
      && r.value.relativePath == relativePath
      && r.value.rootDir == rootDir
      && r.value.fullPath == rootDir + relativePath[1..]
      && [r.value.albumName] + [Base(r.value.fullPath)] == relativePath[|relativePath| - 2..]
  {
    if |relativePath| == 0 || relativePath[0] != MediaPrefix then Failure(InvalidPath)
    else if |relativePath| < 2 then Failure(InvalidPath)
    else
      Success(Image(relativePath, rootDir, rootDir + relativePath[1..], relativePath[|relativePath| - 2]))
  }

  /**
    * `Image::from_full_path` for a path found on disk: root and full path are kept
    * verbatim, the relative path is what lies below the root, and the album is the
    * name of the parent folder. The program panics where this returns `InvalidPath`.
    */
  function FromFullPath(fullPath: Path, rootDir: Path): (r: Result<Image, Error>)
    ensures r.Success? <==> rootDir <= fullPath && |fullPath| >= 2
    ensures r.Failure? ==> r.error == InvalidPath
    ensures r.Success? ==>
      && r.value.rootDir == rootDir
      && r.value.fullPath == fullPath
      && rootDir + r.value.relativePath == fullPath
      && fullPath[|fullPath| - 2..] == [r.value.albumName, Base(fullPath)]
  {
    if !(rootDir <= fullPath) then Failure(InvalidPath)
    else if |fullPath| < 2 then Failure(InvalidPath)
    else Success(Image(fullPath[|rootDir|..], rootDir, fullPath, fullPath[|fullPath| - 2]))
  }

  /** `<root_dir>/<score folder>/<album>/<file name>`. */
  function DestinationPath(image: Image, score: ReviewScore): (r: Path)
    requires image.fullPath != []
    ensures image.rootDir < r && |r| == |image.rootDir| + 3
    ensures r[|image.rootDir|] == AsStr(score)
    ensures r[|image.rootDir| + 1] == image.albumName && Base(r) == Base(image.fullPath)
  {
    image.rootDir + [AsStr(score), image.albumName, image.fullPath[|image.fullPath| - 1]]
  }

  /** `PhotoReview::get_destination_path`: the destination of the review's image under its score. */
  function ReviewDestinationPath(review: PhotoReview): (r: Path)
    requires review.image.fullPath != []
    ensures r == DestinationPath(review.image, review.score)
  {
    DestinationPath(review.image, review.score)
  }

  /** Different scores send the same image to different buckets. */
  lemma DestinationsDistinct(image: Image, a: ReviewScore, b: ReviewScore)
    requires image.fullPath != [] && a != b
    ensures DestinationPath(image, a) != DestinationPath(image, b)
  {
    AsStrInjective(a, b);
    var k := |image.rootDir|;
    assert DestinationPath(image, a)[k] != DestinationPath(image, b)[k];
  }

  /** Reading a destination back with `FromFullPath` keeps album and file name. */
  lemma DestinationReadBack(image: Image, score: ReviewScore)
    requires image.fullPath != []
    ensures var dest := DestinationPath(image, score);
      && FromFullPath(dest, image.rootDir).Success?
      && FromFullPath(dest, image.rootDir).value.albumName == image.albumName
      && Base(FromFullPath(dest, image.rootDir).value.fullPath) == Base(image.fullPath)
      && FromFullPath(dest, image.rootDir).value.relativePath
         == [AsStr(score), image.albumName, Base(image.fullPath)]
  {
    var dest := DestinationPath(image, score);
    assert dest[..|image.rootDir|] == image.rootDir;
  }

  /** The two constructors agree for a photo inside an album folder below `/media`:
      the file found at its full path is the same photo, with the relative path
      stripped of its client prefix. */
  lemma NewThenFromFullPath(relativePath: Path, rootDir: Path)
    requires New(relativePath, rootDir).Success? && |relativePath| >= 3
    ensures var image := New(relativePath, rootDir).value;
      && FromFullPath(image.fullPath, rootDir).Success?
      && FromFullPath(image.fullPath, rootDir).value
         == Image(relativePath[1..], rootDir, image.fullPath, image.albumName)
  {
    var full := rootDir + relativePath[1..];
    assert New(relativePath, rootDir).value.fullPath == full;
    assert full[..|rootDir|] == rootDir;
    assert full[|rootDir|..] == relativePath[1..];
    assert full[|full| - 2] == relativePath[|relativePath| - 2];
  }

  /** For a photo directly below `/media` the constructors disagree on the album:
      `New` names it `media`, while the same file read back from disk is given the
      name of the root folder. */
  lemma TopLevelPhotoAlbums(rootDir: Path, file: Name)
    requires rootDir != []
    ensures New([MediaPrefix, file], rootDir).value.albumName == MediaPrefix
    ensures FromFullPath(rootDir + [file], rootDir).value.albumName == rootDir[|rootDir| - 1]
  {
  }

  /** The client path `/media/albumX/good-photo.jpg` reviewed as Good lands at
      `<root>/002-good/albumX/good-photo.jpg`. */
  lemma GoodPhotoExample(rootDir: Path)
    ensures New(["media", "albumX", "good-photo.jpg"], rootDir).Success?
    ensures DestinationPath(New(["media", "albumX", "good-photo.jpg"], rootDir).value, Good)
            == rootDir + ["002-good", "albumX", "good-photo.jpg"]
  {
  }
}
