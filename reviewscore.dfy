/** The triage outcomes and the bucket folder each one names. */
module ReviewScores {
  import opened Paths

  /** Three user-facing scores and the internal bucket for duplicates. */
  datatype ReviewScore = Best | Good | Worst | AlreadyReviewed

  /** The bucket folder name of a score: a single path component. */
  function AsStr(score: ReviewScore): (r: Name)
    ensures r != [] && '.' !in r
  {
    match score
    case Best => "001-best"
    case Good => "002-good"
    case Worst => "003-worst"
    case AlreadyReviewed => "already_reviewed"
  }

  /** No two scores share a bucket folder. */
  lemma AsStrInjective(a: ReviewScore, b: ReviewScore)
    ensures AsStr(a) == AsStr(b) <==> a == b
  {
  }

  /** The scores a user can give, in the order the buckets are searched. */
  function GetReviewScores(): (r: seq<ReviewScore>)
    ensures |r| == 3 && r[0] == Best && r[1] == Good && r[2] == Worst
    ensures AlreadyReviewed !in r
  {
    [Best, Good, Worst]
  }

  /** The bucket folder names of the user-facing scores, in the same order. */
  function GetReviewScoresAsStr(): (r: seq<Name>)
    ensures |r| == |GetReviewScores()|
    ensures forall i :: 0 <= i < |r| ==> r[i] == AsStr(GetReviewScores()[i])
  {
    var scores := GetReviewScores();
    seq(|scores|, i requires 0 <= i < |scores| => AsStr(scores[i]))
  }

  /** A folder name is a user-facing bucket exactly when it names a user-facing score;
      in particular the duplicates bucket is never one of them. */
  lemma UserFacingFolders(s: ReviewScore)
    ensures AsStr(s) in GetReviewScoresAsStr() <==> s in GetReviewScores()
    ensures AsStr(AlreadyReviewed) !in GetReviewScoresAsStr()
  {
    var names := GetReviewScoresAsStr();
    if AsStr(s) in names {
      var i :| 0 <= i < |names| && names[i] == AsStr(s);
      AsStrInjective(s, GetReviewScores()[i]);
    }
    if s in GetReviewScores() {
      var i :| 0 <= i < 3 && GetReviewScores()[i] == s;
      assert names[i] == AsStr(s);
    }
    if AsStr(AlreadyReviewed) in names {
      var i :| 0 <= i < |names| && names[i] == AsStr(AlreadyReviewed);
      AsStrInjective(AlreadyReviewed, GetReviewScores()[i]);
    }
  }
}
