/**
 * Step 5 of the survey: for every class directory of a split, the number of
 * entries whose name passes the image-name test. Directory listings are
 * inputs: a split is the sequence of its class entries, and `dirs` maps each
 * class entry that is a directory to the sequence of names it holds.
 */
module ClassCounts {
  import opened SurveyTypes
  import opened ImageNames

  /** The entries of a listing that pass the image-name test, in listing order. */
  function ImageEntries(listing: seq<string>): (r: seq<string>)
    ensures |r| <= |listing|
    ensures forall f :: f in r <==> f in listing && IsImageName(f)
  {
    if listing == [] then []
    else
      var front := listing[..|listing| - 1];
      var last := listing[|listing| - 1];
      assert listing == front + [last];
      ImageEntries(front) + (if IsImageName(last) then [last] else [])
  }

  /** The count recorded for one class directory: the length of the filtered listing. */
  function CountImages(listing: seq<string>): (n: nat)
    ensures n <= |listing|
  {
    |ImageEntries(listing)|
  }

  /** The positions of a listing whose names pass the image-name test. */
  ghost function ImagePositions(listing: seq<string>): set<int> {
    set i | 0 <= i < |listing| && IsImageName(listing[i])
  }

  /** One more entry at the end adds its position when its name passes the test. */
  lemma ImagePositionsStep(front: seq<string>, last: string)
    ensures ImagePositions(front + [last]) ==
            ImagePositions(front) + (if IsImageName(last) then {|front|} else {})
  {
  }

  /** One more entry at the end adds one to the count when its name passes the test. */
  lemma CountImagesStep(front: seq<string>, last: string)
    ensures CountImages(front + [last]) == CountImages(front) + (if IsImageName(last) then 1 else 0)
  {
  }

  /** The count is exactly the number of positions holding an image name. */
  lemma {:induction false} CountIsImagePositions(listing: seq<string>)
    ensures CountImages(listing) == |ImagePositions(listing)|
  {
    if listing != [] {
      var n := |listing|;
      var front, last := listing[..n - 1], listing[n - 1];
      assert listing == front + [last];
      CountIsImagePositions(front);
      CountImagesStep(front, last);
      ImagePositionsStep(front, last);
      assert n - 1 !in ImagePositions(front);
    }
  }

  /** Every entry is counted exactly when the whole listing consists of image names. */
  lemma {:induction false} CountAllIff(listing: seq<string>)
    ensures CountImages(listing) == |listing| <==> forall i :: 0 <= i < |listing| ==> IsImageName(listing[i])
  {
    if listing != [] {
      var n := |listing|;
      var front := listing[..n - 1];
      CountAllIff(front);
      assert listing == front + [listing[n - 1]];
      assert forall i :: 0 <= i < n - 1 ==> listing[i] == front[i];
    }
  }

  /** Nothing is counted exactly when no entry is an image name. */
  lemma CountNoneIff(listing: seq<string>)
    ensures CountImages(listing) == 0 <==> forall i :: 0 <= i < |listing| ==> !IsImageName(listing[i])
  {
    if CountImages(listing) == 0 {
      forall i | 0 <= i < |listing| ensures !IsImageName(listing[i]) {
        assert listing[i] in listing;
      }
    } else {
      var f := ImageEntries(listing)[0];
      assert f in ImageEntries(listing);
    }
  }

  /** Renaming entries by changing only the letter case of their names leaves the count unchanged. */
  lemma {:induction false} CountIgnoresCase(a: seq<string>, b: seq<string>)
    requires |a| == |b| && forall i :: 0 <= i < |a| ==> SameIgnoringCase(a[i], b[i])
    ensures CountImages(a) == CountImages(b)
  {
    if a != [] {
      var n := |a|;
      CountIgnoresCase(a[..n - 1], b[..n - 1]);
      IsImageNameIgnoresCase(a[n - 1], b[n - 1]);
    }
  }

  /** Every class entry of the split is a directory. */
  ghost predicate AllDirectories(split: seq<string>, dirs: map<string, seq<string>>) {
    forall i :: 0 <= i < |split| ==> split[i] in dirs
  }

  /** `error` names the first class entry of `split` that is not a directory. */
  ghost predicate FirstNonDirectory(split: seq<string>, dirs: map<string, seq<string>>, error: SurveyError) {
    exists k :: 0 <= k < |split| && error == NotADirectory(split[k]) &&
                split[k] !in dirs && forall i :: 0 <= i < k ==> split[i] in dirs
  }

  /**
   * Builds the table of per-class counts by visiting the split's class entries
   * in order. Listing an entry that is not a directory stops the survey.
   */
  method CountClasses(split: seq<string>, dirs: map<string, seq<string>>)
    returns (res: Result<map<string, nat>>)
    ensures res.Ok? <==> AllDirectories(split, dirs)
    ensures res.Ok? ==> res.value.Keys == set c | c in split
    ensures res.Ok? ==> forall c :: c in res.value ==>
                          c in dirs && res.value[c] == CountImages(dirs[c]) && res.value[c] <= |dirs[c]|
    ensures res.Err? ==> FirstNonDirectory(split, dirs, res.error)
  {
    var counts: map<string, nat> := map[];
    for i := 0 to |split|
      invariant forall j :: 0 <= j < i ==> split[j] in dirs
      invariant counts.Keys == set c | c in split[..i]
      invariant forall c :: c in counts ==> c in dirs && counts[c] == CountImages(dirs[c])
    {
      var cls := split[i];
      if cls !in dirs {
        return Err(NotADirectory(cls));
      }
      assert split[..i + 1] == split[..i] + [cls];
      counts := counts[cls := CountImages(dirs[cls])];
    }
    assert split[..|split|] == split;
    return Ok(counts);
  }
}
