/**
 * Step 6 of the survey: image sizes read from a bounded sample. Only the first
 * class entry of the training split is visited; of its listing at most the
 * first 25 entries are opened, whatever their names, and each one's
 * dimensions are recorded. The decoded size of each entry is an input
 * (`decode`); an entry missing from it cannot be opened as an image.
 */
module SizeSample {
  import opened SurveyTypes

  /** How many entries of the sampled class directory are opened at most. */
  const SampleLimit: nat := 25

  /** The recorded sizes, in the order opened, and the entry opened last. */
  datatype Sample = Sample(sizes: seq<Size>, sampled: Option<ImagePath>)

  /** The entries the sample opens: a prefix of the listing, cut at the limit. */
  function SampledNames(listing: seq<string>): (r: seq<string>)
    ensures |r| == Min(SampleLimit, |listing|)
    ensures r == listing[..|r|]
  {
    if |listing| <= SampleLimit then listing else listing[..SampleLimit]
  }

  /** The sample can be taken without error: the training split is empty, or its first
      class entry is a directory all of whose sampled entries can be opened. */
  ghost predicate SampleDecodable(train: seq<string>, dirs: map<string, seq<string>>,
                                  decode: map<ImagePath, Size>)
  {
    |train| == 0 ||
    (train[0] in dirs &&
     var names := SampledNames(dirs[train[0]]);
     forall k :: 0 <= k < |names| ==> ImagePath(train[0], names[k]) in decode)
  }

  /** `error` names the first of the sampled entries `names` of class `cls` that cannot be opened. */
  ghost predicate FirstUndecodable(cls: string, names: seq<string>, decode: map<ImagePath, Size>,
                                   error: SurveyError)
  {
    exists k :: 0 <= k < |names| && error == Undecodable(ImagePath(cls, names[k])) &&
                ImagePath(cls, names[k]) !in decode &&
                forall j :: 0 <= j < k ==> ImagePath(cls, names[j]) in decode
  }

  /**
   * Opens the sampled entries of the first training class in listing order,
   * recording each size and remembering the entry opened last.
   */
  method SampleSizes(train: seq<string>, dirs: map<string, seq<string>>, decode: map<ImagePath, Size>)
    returns (res: Result<Sample>)
    ensures res.Ok? <==> SampleDecodable(train, dirs, decode)
    ensures res.Ok? && |train| == 0 ==> res.value == Sample([], None)
    ensures res.Ok? && |train| > 0 ==>
              var cls := train[0];
              var names := SampledNames(dirs[cls]);
              && |res.value.sizes| == |names|
              && (forall k :: 0 <= k < |names| ==> res.value.sizes[k] == decode[ImagePath(cls, names[k])])
              && res.value.sampled == (if names == [] then None else Some(ImagePath(cls, names[|names| - 1])))
    ensures res.Err? ==> |train| > 0
    ensures res.Err? && |train| > 0 && train[0] !in dirs ==> res.error == NotADirectory(train[0])
    ensures res.Err? && |train| > 0 && train[0] in dirs ==>
              FirstUndecodable(train[0], SampledNames(dirs[train[0]]), decode, res.error)
  {
    var sizes: seq<Size> := [];
    var sampled: Option<ImagePath> := None;
    for i := 0 to |train|
      invariant i == 0
    {
      var cls := train[i];
      if cls !in dirs {
        return Err(NotADirectory(cls));
      }
      var names := SampledNames(dirs[cls]);
      for j := 0 to |names|
        invariant |sizes| == j
        invariant forall k :: 0 <= k < j ==>
                    ImagePath(cls, names[k]) in decode && sizes[k] == decode[ImagePath(cls, names[k])]
        invariant sampled == if j == 0 then None else Some(ImagePath(cls, names[j - 1]))
      {
        var path := ImagePath(cls, names[j]);
        if path !in decode {
          return Err(Undecodable(path));
        }
        sizes := sizes + [decode[path]];
        sampled := Some(path);
      }
      break;
    }
    return Ok(Sample(sizes, sampled));
  }

  /** The distinct (width, height) pairs among the recorded sizes. */
  function DistinctSizes(sizes: seq<Size>): (r: set<Size>)
    ensures forall s :: s in r <==> s in sizes
    ensures |r| <= |sizes|
  {
    if sizes == [] then {}
    else
      var front := sizes[..|sizes| - 1];
      assert sizes == front + [sizes[|sizes| - 1]];
      DistinctSizes(front) + {sizes[|sizes| - 1]}
  }

  /** The reported number of unique sizes in the sample. */
  function UniqueSizeCount(sizes: seq<Size>): (n: nat)
    ensures n <= |sizes|
    ensures |sizes| > 0 ==> n >= 1
  {
    var r := DistinctSizes(sizes);
    assert sizes != [] ==> sizes[0] in r;
    |r|
  }

  /** No size occurs twice in the sequence. */
  predicate NoRepeatedSize(sizes: seq<Size>) {
    forall i, j :: 0 <= i < j < |sizes| ==> sizes[i] != sizes[j]
  }

  /** Recording one more size adds one unique size exactly when it was not recorded before. */
  lemma UniqueCountStep(front: seq<Size>, last: Size)
    ensures UniqueSizeCount(front + [last]) == UniqueSizeCount(front) + (if last in front then 0 else 1)
  {
    var sizes := front + [last];
    assert sizes[..|sizes| - 1] == front;
    var before := DistinctSizes(front);
    assert DistinctSizes(sizes) == before + {last};
    if last in front {
      assert last in before;
      assert before + {last} == before;
    } else {
      assert last !in before;
      assert |before + {last}| == |before| + 1;
    }
  }

  /** Dropping the last size keeps a sequence free of repetitions, and one that stays free
      of repetitions is extended by a size not seen before. */
  lemma NoRepeatedSizeStep(front: seq<Size>, last: Size)
    ensures NoRepeatedSize(front + [last]) <==> NoRepeatedSize(front) && last !in front
  {
    var sizes := front + [last];
    var n := |sizes|;
    assert forall i :: 0 <= i < n - 1 ==> sizes[i] == front[i];
    if NoRepeatedSize(sizes) {
      assert last !in front by {
        forall i | 0 <= i < n - 1 ensures front[i] != last {
          assert sizes[i] != sizes[n - 1];
        }
      }
    }
  }

  /** Every recorded size is unique exactly when no size is recorded twice. */
  lemma {:induction false} UniqueCountIsLengthIff(sizes: seq<Size>)
    ensures UniqueSizeCount(sizes) == |sizes| <==> NoRepeatedSize(sizes)
  {
    if sizes != [] {
      var n := |sizes|;
      var front, last := sizes[..n - 1], sizes[n - 1];
      assert sizes == front + [last];
      UniqueCountIsLengthIff(front);
      UniqueCountStep(front, last);
      NoRepeatedSizeStep(front, last);
    }
  }
}
