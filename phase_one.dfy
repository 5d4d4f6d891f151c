/**
 * The survey as the script runs it: class counts of the training split, then
 * of the testing split, then the size sample, the number of unique sizes, the
 * mode of the last sampled image and finally the dominant training class.
 * The first step that raises ends the run with that error.
 */
module PhaseOne {
  import opened SurveyTypes
  import opened ClassCounts
  import opened SizeSample
  import opened Dominant

  /** Everything the survey reports. `modeOf` is the image whose color mode is reported. */
  datatype Report = Report(
    trainCounts: map<string, nat>,
    testCounts: map<string, nat>,
    sample: Sample,
    uniqueSizes: nat,
    modeOf: ImagePath,
    dominant: string)

  /** The conditions under which no step of the survey raises. */
  ghost predicate SurveySucceeds(train: seq<string>, trainDirs: map<string, seq<string>>,
                                 test: seq<string>, testDirs: map<string, seq<string>>,
                                 decode: map<ImagePath, Size>)
  {
    && AllDirectories(train, trainDirs)
    && AllDirectories(test, testDirs)
    && SampleDecodable(train, trainDirs, decode)
    && |train| > 0
    && |trainDirs[train[0]]| > 0
  }

  /** What a successful run reports, in terms of its inputs. */
  ghost predicate IsReportOf(r: Report, train: seq<string>, trainDirs: map<string, seq<string>>,
                             test: seq<string>, testDirs: map<string, seq<string>>,
                             decode: map<ImagePath, Size>)
    requires |train| > 0 && train[0] in trainDirs
  {
    && r.trainCounts.Keys == (set c | c in train)
    && (forall c :: c in r.trainCounts ==> c in trainDirs && r.trainCounts[c] == CountImages(trainDirs[c]))
    && r.testCounts.Keys == (set c | c in test)
    && (forall c :: c in r.testCounts ==> c in testDirs && r.testCounts[c] == CountImages(testDirs[c]))
    && |r.sample.sizes| == Min(SampleLimit, |trainDirs[train[0]]|)
    && (forall k :: 0 <= k < |r.sample.sizes| ==>
          ImagePath(train[0], trainDirs[train[0]][k]) in decode &&
          r.sample.sizes[k] == decode[ImagePath(train[0], trainDirs[train[0]][k])])
    && r.uniqueSizes == |DistinctSizes(r.sample.sizes)|
    && 1 <= r.uniqueSizes <= |r.sample.sizes|
    && r.modeOf == ImagePath(train[0], trainDirs[train[0]][|r.sample.sizes| - 1])
    && r.dominant in r.trainCounts
    && (forall c :: c in r.trainCounts ==> r.trainCounts[c] <= r.trainCounts[r.dominant])
    && (exists k :: 0 <= k < |train| && train[k] == r.dominant &&
                    forall i :: 0 <= i < k ==> r.trainCounts[train[i]] < r.trainCounts[r.dominant])
  }

  method RunSurvey(train: seq<string>, trainDirs: map<string, seq<string>>,
                   test: seq<string>, testDirs: map<string, seq<string>>,
                   decode: map<ImagePath, Size>)
    returns (res: Result<Report>)
    ensures res.Ok? <==> SurveySucceeds(train, trainDirs, test, testDirs, decode)
    ensures !AllDirectories(train, trainDirs) ==>
              res.Err? && FirstNonDirectory(train, trainDirs, res.error)
    ensures AllDirectories(train, trainDirs) && !AllDirectories(test, testDirs) ==>
              res.Err? && FirstNonDirectory(test, testDirs, res.error)
    ensures AllDirectories(train, trainDirs) && AllDirectories(test, testDirs) &&
            !SampleDecodable(train, trainDirs, decode) ==>
              res.Err? && FirstUndecodable(train[0], SampledNames(trainDirs[train[0]]), decode, res.error)
    ensures AllDirectories(train, trainDirs) && AllDirectories(test, testDirs) &&
            SampleDecodable(train, trainDirs, decode) && (|train| == 0 || |trainDirs[train[0]]| == 0) ==>
              res == Err(NoSampledImage)
    ensures res.Ok? ==> IsReportOf(res.value, train, trainDirs, test, testDirs, decode)
  {
    var trainResult := CountClasses(train, trainDirs);
    if trainResult.Err? {
      return Err(trainResult.error);
    }
    var trainCounts := trainResult.value;
    var testResult := CountClasses(test, testDirs);
    if testResult.Err? {
      return Err(testResult.error);
    }
    var sampleResult := SampleSizes(train, trainDirs, decode);
    if sampleResult.Err? {
      return Err(sampleResult.error);
    }
    var sample := sampleResult.value;
    var unique := UniqueSizeCount(sample.sizes);
    if sample.sampled.None? {
      return Err(NoSampledImage);
    }
    var dominant := DominantClass(trainCounts, train).value;
    var report := Report(trainCounts, testResult.value, sample, unique, sample.sampled.value, dominant);
    var names := SampledNames(trainDirs[train[0]]);
    assert names == trainDirs[train[0]][..|sample.sizes|];
    assert forall k :: 0 <= k < |sample.sizes| ==> names[k] == trainDirs[train[0]][k];
    assert report.modeOf == ImagePath(train[0], trainDirs[train[0]][|sample.sizes| - 1]);
    assert IsReportOf(report, train, trainDirs, test, testDirs, decode);
    return Ok(report);
  }
}
