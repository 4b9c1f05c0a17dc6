# photomanager file management, modelled in Dafny

photomanager is a photo-triage tool. A user looks at the photos of one album
folder at a time and gives each a score: best, good or worst. The score is
recorded only by where the photo lives on disk. Reviewing a photo moves
`<root>/<album>/<file>` to `<root>/<score folder>/<album>/<file>`. When a
different photo already sits there, it goes to a free numbered sibling
`<name>-N.<ext>` instead. Undo moves back whatever sits at the unnumbered bucket
path. After a numbered review, that is the other photo, not the reviewed one.
Listing the next batch of photos picks the folder of the first
photo-like file the scanner meets outside the three score folders. That folder
can hold no listable photo (its only match is a hidden name such as `.png`), or
it can be `already_reviewed/<album>`, which the scanner does not skip. The
listing counts the folder's photos and hands out at most 20 of them. It goes
through the sorted photos lazily and stops once 20 are kept. Each photo it
examines is compared with the score folders. When a score folder holds its
bytes, the photo is moved to `<root>/already_reviewed/<album>/<file>` and left
out of the batch. When that move fails, the next score folder is tried, and a
later match moves it again. Only when every such move fails does the photo stay
in the batch. Photos after
the 20th kept one are neither compared nor moved.

The project models that core. The disk is the only state.

- `common.dfy` (module `Common`): `Option`, `Result`, an `Outcome` for
  operations that return nothing, the error kinds, and bytes.
- `paths.dfy` (module `Paths`): absolute paths as sequences of components. It
  also defines Rust's `file_stem`/`extension` split (a leading dot does not
  start an extension) and the order `String` sorting uses.
- `reviewscore.dfy` (module `ReviewScores`): the four scores, their folder
  names, and the three scores a user can give.
- `image.dfy` (module `Images`): the two `Image` constructors and the bucket
  path a score sends a photo to. These are pure functions of paths.
- `fsops.dfy` (module `FsOps`): the read-only queries as functions over the
  file map. These are the overwrite gate, the byte comparison and the search
  for a free `name-N.ext` sibling. The class `FileSystem` holds the disk as
  fields `files` (path to bytes), `dirs` and `modes`. Its methods
  `CreateDirAll`, `Chmod`, `Rename` and `RenameWithCreateDirAll` change those
  fields in place.
- `file_management.dfy` (module `FileManagement`): the class `FileManager`.
  Its methods review, undo, scan for the next folder, list and sort that
  folder, and run the lazy filter that archives duplicates and stops after 20
  kept photos. The module also holds the pure specifications these methods are
  proved against: `MoveTarget`, `ImageChildren`, `Select`, `ArchiveAll` and
  `ToPhotosToReview`.

Operating-system failures (a refused `create_dir_all`, `chmod`, `rename` or
`read_dir`) are modelled as nondeterministic choices inside the methods. Every
contract therefore holds whatever the operating system decides. The directory
traversal of the folder scanner is a parameter `walk`: the entries below the
root in traversal order. `get_photos_to_review` requires that `walk` lists
exactly the entries below the root. The public base URL is a parameter too.

`Image::new`, `Image::from_full_path` and several `unwrap`s panic in the
program. Here they return `Failure(InvalidPath)`, and the callers'
preconditions rule those cases out where the program relies on them not
happening.

## Model

| member | source | states |
|---|---|---|
| ReviewScores.AsStr | src/reviewscore.rs:12-19 | each score's bucket folder name is a non-empty name with no dot, so it has no extension |
| ReviewScores.AsStrInjective | src/reviewscore.rs:12-19 | two scores share a folder name only if they are the same score |
| ReviewScores.GetReviewScores | src/reviewscore.rs:22-25 | the user-facing scores are exactly Best, Good, Worst in that order, and AlreadyReviewed is not among them |
| ReviewScores.GetReviewScoresAsStr | src/reviewscore.rs:27-33 | one folder name per user-facing score, the i-th being the name of the i-th score |
| ReviewScores.UserFacingFolders | src/reviewscore.rs:12-33 | a folder name is user-facing exactly when its score is; `already_reviewed` is never a user-facing name |
| Paths.Parent | src/fsops.rs:40-42 | every path except `/` has a parent, and the parent plus the last component gives the path back |
| Paths.StemAndExtension | src/fsops.rs:43-51 | a file name is its stem, then a dot and its extension when it has one; the extension holds no dot; without an extension the stem is the whole name |
| Paths.NameLessIrreflexive | src/file_management.rs:128 | the sort order never puts a name before itself |
| Paths.NameLessTransitive | src/file_management.rs:128 | the sort order is transitive |
| Paths.NameLessTotal | src/file_management.rs:128 | any two different names are ordered one way or the other |
| Images.New | src/image.rs:41-59 | succeeds exactly for a client path of at least two components starting with `media`; the full path is the root followed by the rest of the client path; the album is the client path's parent folder name; otherwise `InvalidPath` |
| Images.FromFullPath | src/image.rs:60-79 | succeeds exactly when the path lies under the root and has a parent folder; keeps root and full path verbatim; the relative path is what follows the root; the album is the parent folder name |
| Images.DestinationPath | src/image.rs:80-89 | the bucket path lies below the root, three components deeper: score folder, album, and the photo's own file name |
| Images.ReviewDestinationPath | src/image.rs:15-17 | a review's destination is its image's bucket path under the review's score |
| Images.DestinationsDistinct | src/image.rs:80-89 | different scores send the same photo to different paths |
| Images.DestinationReadBack | src/image.rs:60-89 | reading a bucket path back with `from_full_path` succeeds and keeps album and file name |
| Images.NewThenFromFullPath | src/image.rs:41-79 | for a photo inside an album folder, `from_full_path` of the `new` image's full path gives the same photo with the `media` prefix dropped from its relative path |
| Images.TopLevelPhotoAlbums | src/image.rs:50-77 | for a photo directly under `/media`, `new` names the album `media` while `from_full_path` names it after the root folder |
| Images.GoodPhotoExample | tests/model.rs:144-148 | `/media/albumX/good-photo.jpg` scored Good goes to `<root>/002-good/albumX/good-photo.jpg` |
| FsOps.Prefixes | src/fsops.rs:25-30 | the folders `create_dir_all` makes: every ancestor of the path and the path itself; each lies on the path |
| FsOps.CanSafelyOverwrite | src/fsops.rs:7-12 | true when nothing is at the destination; otherwise the byte comparison; fails when an existing side is not a readable regular file |
| FsOps.HaveEqualContents | src/fsops.rs:14-19 | false when nothing is at the destination; true exactly when both are regular files with the same bytes; same failure cases as the gate |
| FsOps.ComparisonsAgree | src/fsops.rs:7-19 | the two comparisons give the same answer when the destination exists and opposite answers when it does not |
| FsOps.MoveEntry | src/fsops.rs:34-35 | after a rename the destination holds the source's bytes, the source is gone, and every other path is unchanged |
| FsOps.MoveThereAndBack | src/fsops.rs:34-35 | renaming a file to a free path and back restores the files exactly |
| FsOps.DecimalString | src/fsops.rs:55 | the attempt number is printed as a non-empty run of decimal digits |
| FsOps.Candidate | src/fsops.rs:48-55 | the i-th numbered sibling `<stem>-<i>[.<ext>]` has the same length and the same folder as the path |
| FsOps.FirstFree | src/fsops.rs:53-61 | the probe returns the first free attempt number from its start, and none when all up to 1000 are taken |
| FsOps.GetUniqueFilepath | src/fsops.rs:38-63 | fails with `NoParent` exactly for `/` and with `ExhaustedAttempts` exactly when all 1000 candidates exist; otherwise returns the candidate with the smallest free number, and nothing exists there |
| FsOps.CandidateShape | src/fsops.rs:48-55 | a numbered sibling stays in the same folder and keeps the extension; a name without extension only gets `-N`, no dot |
| FsOps.UniquePathKeepsFolderAndExtension | src/fsops.rs:38-63 | the unique path is a different path in the same folder with the same extension |
| FsOps.FileSystem.CreateDirAll | src/fsops.rs:25-30 | on success every ancestor of the folder is a directory; fails, changing nothing, when a regular file is in the way |
| FsOps.FileSystem.Chmod | src/fsops.rs:65-69 | records the mode of an existing path; fails for a missing path |
| FsOps.FileSystem.Rename | src/fsops.rs:34-35 | on success the files are exactly `MoveEntry` of the old files; fails, changing nothing, when the source is not a regular file, the destination is a directory or its parent folder is missing |
| FsOps.FileSystem.RenameWithCreateDirAll | src/fsops.rs:21-36 | fails with `NoParent` for `/`; on success the parent folders exist, the parent's mode is set and the files are `MoveEntry` of the old files; on failure the files are unchanged |
| FileManagement.MoveTarget | src/file_management.rs:56-64 | the destination itself exactly when it is free or holds the same bytes; otherwise a free path, or nothing when the destination holds different bytes and a read fails or no sibling is free |
| FileManagement.MoveTargetFreeOrIdentical | src/file_management.rs:56-64 | a free or byte-identical destination is used as is, so no numbered file appears |
| FileManagement.MoveTargetDifferentContents | src/file_management.rs:57-64 | with different bytes at the destination the photo goes to the unique numbered sibling; the destination keeps its bytes and the photo's bytes land at the sibling |
| FileManagement.ReviewMoveLosesNothing | src/file_management.rs:51-66 | whichever target the gate picks, every byte sequence on disk before the move is still on disk after it |
| FileManagement.ReviewThenUndoRestores | src/file_management.rs:33-75 | reviewing onto a free destination and undoing restores the files exactly |
| FileManagement.ReviewGoodPhotoScenario | tests/model.rs:114-155 | a lone `albumX/good-photo.jpg` scored Good ends at `002-good/albumX/good-photo.jpg` and is gone from the album |
| FileManagement.UndoAfterNumberedReview | src/file_management.rs:68-75 | after a review that had to use a numbered sibling, undo moves the other photo onto the reviewed photo's original path, and the reviewed photo stays under its numbered name |
| FileManagement.IsImageName | src/file_management.rs:119-123 | the listing keeps a name exactly when its Rust extension is png, jpg, jpeg or gif |
| FileManagement.IsGlobImageName | src/file_management.rs:165 | the scanner's glob `*.{png,jpg,jpeg,gif}` matches a name exactly when it ends in one of the four dotted suffixes |
| FileManagement.ImageChildren | src/file_management.rs:115-126 | the listing's candidates: regular files directly in the folder whose name the listing keeps |
| FileManagement.Reviewable | src/file_management.rs:164-186 | the scanner stops at a path below the root whose name matches the glob and whose folders, itself included, are not user-facing buckets |
| FileManagement.ListedNamesMatchGlob | src/file_management.rs:119-123 | every name the listing keeps also matches the scanner's `*.{png,jpg,jpeg,gif}` glob |
| FileManagement.HiddenNameMatchesGlobOnly | src/file_management.rs:166 | `.png` matches the glob but has no extension, so the listing drops it |
| FileManagement.ExtensionlessBucketNames | src/file_management.rs:166-171 | no user-facing bucket folder name looks like a photo file name |
| FileManagement.ArchivedPhotosAreScanned | src/file_management.rs:166-171 | a photo in `already_reviewed/<album>` is offered for review again, because the scanner skips only the user-facing buckets |
| FileManagement.InsertByName | src/file_management.rs:128 | inserting adds exactly the new entry and keeps all others |
| FileManagement.InsertByNameSorted | src/file_management.rs:128 | inserting a name not yet present keeps the list strictly sorted |
| FileManagement.HasBucketCopy | src/file_management.rs:137-144 | the filter's match: some user-facing bucket holds a file with the photo's bytes at the photo's bucket path |
| FileManagement.ArchiveAll | src/file_management.rs:146-151 | the files after each dropped photo, in order, is renamed into `already_reviewed/<album>/<file>` |
| FileManagement.BucketPathIsDestination | src/file_management.rs:140-151 | the path the filter compares against is the photo's bucket path for that score |
| FileManagement.ArchiveLeavesOtherNames | src/file_management.rs:146-151 | archiving photos leaves every path with a different file name as it was |
| FileManagement.ArchivedPhotoMoved | src/file_management.rs:146-155 | after archiving distinct photos of one folder, each photo's bytes are in `already_reviewed/<album>/<file>` and its original path is gone |
| FileManagement.BucketCopySurvivesArchiving | src/file_management.rs:136-157 | a bucket copy found after earlier photos were archived was already there before the listing began |
| FileManagement.Select | src/file_management.rs:132-160 | the kept entries form a subsequence of the listing |
| FileManagement.BatchStep | src/file_management.rs:132-160 | examining one more photo while fewer than 20 are kept appends it to the batch when kept, and to the archived photos when dropped |
| FileManagement.ExamineStep | src/file_management.rs:136-160 | one round of the lazy filter keeps the batch, bucket-copy and archive facts for the next round |
| FileManagement.SelectHas | src/file_management.rs:132-160 | an entry whose flag is set is among the selected entries |
| FileManagement.SelectDistinct | src/file_management.rs:132-160 | selecting from a listing without repeats gives no repeats |
| FileManagement.SelectFlagged | src/file_management.rs:132-160 | every selected entry comes from a position whose flag is set |
| FileManagement.DroppedPhotosArchived | src/file_management.rs:146-155 | after the dropped photos of a sorted listing are archived in order, each one's bytes are in `already_reviewed/<album>/<file>` and its original path is gone |
| FileManagement.ToPhotosToReview | src/file_management.rs:85-110 | one entry per image, in order, with URL `/media/<relative path>` and the image's folder as album; the folder name is the first image's album, or `unknown` for none |
| FileManagement.FileManager.constructor | src/file_management.rs:21-25 | the manager keeps the media path as its root and works on the given disk |
| FileManagement.FileManager.ReviewPhoto | src/file_management.rs:33-49 | fails with `PhotoNotFound` and changes nothing when the photo is missing; otherwise the files either stay as they were or become `MoveEntry` to the `MoveTarget`; on success the returned review keeps the score and reads back the unnumbered destination. Folders are only ever added, and only ancestors of the bucket folder. Only that folder and paths directly in it get new permission bits, set to 0o775. |
| FileManagement.FileManager.MoveFilePreventOverwriteDifferentContents | src/file_management.rs:51-66 | fails without moving anything when the gate or the sibling search fails; on success the source moved to `MoveTarget` and that file's mode is 0o775. Folders are only ever added, and only ancestors of the destination's folder. Only that folder and paths directly in it get new permission bits, set to 0o775. |
| FileManagement.FileManager.Undo | src/file_management.rs:68-75 | fails with `PhotoNotFound` and changes nothing when the unnumbered bucket path is missing; on success that file is back at the original path and the bucket path no longer exists. Folders are only ever added, and only ancestors of the photo's original folder. At most that folder's permission bits change, to 0o775. |
| FileManagement.FileManager.FindNextFolderPathWithImagesToReview | src/file_management.rs:165-186 | fails with `NoFoldersToReview` exactly when no entry of the traversal is a photo outside the user-facing buckets; otherwise returns the parent of the first such entry |
| FileManagement.FileManager.ListImageFiles | src/file_management.rs:116-130 | lists exactly the png/jpg/jpeg/gif regular files directly in the folder, strictly sorted by name, with the count equal to the number of such files |
| FileManagement.FileManager.ExcludeIfAlreadyReviewed | src/file_management.rs:136-157 | a photo is excluded only when a user-facing bucket held its bytes and its rename into `already_reviewed` succeeded; when it is kept the files are unchanged. Folders are only ever added, and only ancestors of `already_reviewed/<album>`. Only that folder gets new permission bits, set to 0o775. |
| FileManagement.FileManager.TakeBatch | src/file_management.rs:132-160 | examines the sorted listing only until 20 photos are kept; the batch is the kept subsequence read back as images; every dropped photo had a bucket copy; the files are the old files with the dropped photos archived in order; each dropped photo's bytes are now in `already_reviewed/<album>/<file>` and its original path is gone. Folders are only ever added, and only ancestors of `already_reviewed/<album>` for the listed folder's album. Permission bits change only there. |
| FileManagement.FileManager.FindImageFiles | src/file_management.rs:113-163 | picks the first reviewable folder, counts its photos before deduplication, and returns a batch as `TakeBatch` describes, including that dropped photos left the folder; fails with `NoFoldersToReview` exactly when the scanner finds nothing, and any failure leaves the files unchanged. On success, folders and permission bits change only as `TakeBatch` allows. A failure changes no folder and no permission bits. |
| FileManagement.FileManager.GetPhotosToReview | src/file_management.rs:80-111 | fails with `NoFoldersToReview` exactly when no photo outside the user-facing buckets exists below the root, and any failure leaves the files unchanged; on success the photos are the batch `TakeBatch` describes, taken from the sorted listing of the scanner's folder (at most 20, in order, dropped ones moved to `already_reviewed`), projected by `ToPhotosToReview` with the folder's full photo count. On success, folders and permission bits change only as `TakeBatch` allows. A failure changes no file, folder or permission bits. |

## Left out

- The GraphQL and HTTP servers, the Google Photos upload, the HTTP helpers, `main.rs`, `lib.rs` and the unused `src/model.rs` schema are not part of this model; they are transport, network and concurrency code around the core.
- The `PUBLIC_URL` environment variable is the `baseUrl` parameter of `GetPhotosToReview`. A missing variable panics in the program; that is not modelled.
- The `globwalk` traversal is the `walk` parameter. Its order and its handling of symbolic links are not modelled, only its filter: a photo-like name with no user-facing bucket folder on the way.
- Paths are normalised component sequences, so `.` and `..` components and non-UTF-8 names (the program's `to_str().unwrap()`) are not representable.
- Images.New: `strip_prefix("/media")` in the program works on text, so a client path like `/mediaX/a/b.jpg` would be accepted there with a full path glued to the root's last component. The model accepts only a first component that is exactly `media`.
- Panics of `Image::new` and `Image::from_full_path` are modelled as `Failure(InvalidPath)`, not as a crash.
- FsOps.GetUniqueFilepath: the program's `no file title` failure cannot occur for a normal component, because `file_stem` is never empty there, so the model has no such case.
- Permission bits are a record `modes` of the last mode set at each path. They do not follow a file across a rename and do not influence any later operation.
- FsOps.FileSystem.RenameWithCreateDirAll: the program sets the mode only on the destination's immediate folder, not on every folder it creates; the model follows the program.
- FsOps.FileSystem.CreateDirAll: a failure is all-or-nothing. The operating system may leave some of the folders created; that partial state is not modelled.
- FsOps.FileSystem.Rename: only regular files are renamed. Renaming a directory, which the operating system would allow, fails in the model.
- Read errors other than "not a regular file" (permissions, a file changing while it is read) are not modelled. A failing read is an `IoError` only when the path is not a regular file.
- Per-entry errors of `read_dir` and of the traversal, which the program silently drops, are not modelled; `ListImageFiles` either fails as a whole or lists every entry.
- FileManagement.FileManager.constructor requires a root of at least one component. For the root `/` the program would panic on a photo directly in `/`.
- Logging (`println!`, `info!`) and error message texts are not modelled.
- Concurrent requests against the same disk are not modelled; each operation runs alone.
