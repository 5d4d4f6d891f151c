# Brain-tumor MRI dataset survey, modelled in Dafny

The repository prepares an MRI image dataset for classification. After setup and download, the script
`phase1_data_setup.py` surveys the dataset. The dataset root holds a `Training` and a `Testing` split, and each
split holds one directory per class label. The survey:

- counts, for every class directory of both splits, the entries whose lower-cased name ends with `.jpg`, `.png` or
  `.jpeg` (`count_classes`);
- opens at most the first 25 entries of the first class directory of the training split and records each image's
  (width, height);
- reports how many distinct sizes the sample holds and the color mode of the image it opened last;
- names the dominant class: the training class with the largest count, the first one in listing order on a tie.

This project models that survey. Directory listings are inputs. A split is the sequence of its entry names. A map
from class entry to listing says which entries are directories and what each contains. The decoded size of each
entry is also an input: a map from entry path to a (width, height) pair. An entry missing from that map is one the
imaging library cannot open.

Modules, one per step of the script:

- `SurveyTypes` (survey_types.dfy): the result type, the errors the script can raise, sizes and entry paths.
- `ImageNames` (image_names.dfy): ASCII lower-casing, the suffix test, and the predicate that decides whether a name
  is counted.
- `ClassCounts` (class_counts.dfy): the filtered listing as a function, and `count_classes` as a method whose loop
  fills the table.
- `SizeSample` (size_sample.dfy): the sampling loop as a method, and the unique-size count as the size of a set of
  pairs.
- `Dominant` (dominant.dfy): the choice made by `max(train_counts, key=train_counts.get)`, as a left-to-right scan
  that replaces its best key only when it finds a strictly larger count.
- `PhaseOne` (phase_one.dfy): the steps in the script's order, and the error that stops the run early.

Three behaviours of the script are easy to misread; the model keeps what the code does:

- The count tests only the entry's name. An entry that is itself a directory but is named `x.jpg` is counted.
- The sample does not apply the extension filter. It opens the first 25 entries whatever their names, so a
  non-image entry among them stops the run.
- The outer sampling loop breaks at the end of its first iteration. It is kept as a loop over the training listing
  whose invariant says it never gets past its first entry. An empty training listing leaves no image to report the
  mode of, and the script then fails.

## Model

| member | source | states |
|---|---|---|
| `ImageNames.Lower` | phase1_data_setup.py:61 | lower-casing keeps the length and maps each character to its ASCII lower-case form, leaving other characters alone |
| `ImageNames.EndsWithLowerIff` | phase1_data_setup.py:61 | the lower-cased name ends with an extension exactly when its last characters, each lower-cased, spell that extension |
| `ImageNames.ImageNameByCharacters` | phase1_data_setup.py:59-62 | a name is counted if and only if it ends, ignoring case, with `.jpg`, `.png` or `.jpeg` |
| `ImageNames.LowerIgnoresCase` | phase1_data_setup.py:61 | two names that differ only in letter case have the same lower-cased form |
| `ImageNames.IsImageNameIgnoresCase` | phase1_data_setup.py:61 | two names that differ only in letter case are both counted or both not counted |
| `ImageNames.IsImageNameUnderCaseChange` | phase1_data_setup.py:61 | upper-casing or lower-casing a name does not change whether it is counted |
| `ImageNames.CountedByExtension` | phase1_data_setup.py:61 | a name ending, ignoring case, with any one of the three extensions is counted |
| `ImageNames.NotCountedUnlessLastIsG` | phase1_data_setup.py:61 | a name whose last character is not `g` or `G` (or an empty name) is never counted |
| `ImageNames.UpperCaseJpgCounted` | phase1_data_setup.py:61 | a name with an upper-case `.JPG` extension is counted |
| `ImageNames.MixedCaseJpegCounted` | phase1_data_setup.py:61 | a `.Jpeg` name is counted |
| `ImageNames.BareExtensionCounted` | phase1_data_setup.py:61 | the name `.png` alone is counted, since only the suffix is tested |
| `ImageNames.OtherExtensionsNotCounted` | phase1_data_setup.py:61 | `.txt` and the truncated `.jpe` are not counted |
| `ImageNames.MissingDotNotCounted` | phase1_data_setup.py:61 | `scan_jpg` is not counted: the dot is part of the extension |
| `ClassCounts.ImageEntries` | phase1_data_setup.py:59-62 | the filtered listing is no longer than the listing and holds exactly the listing's names that pass the test |
| `ClassCounts.CountImages` | phase1_data_setup.py:59-62 | a class's count is between 0 and the number of entries in its listing |
| `ClassCounts.CountImagesStep` | phase1_data_setup.py:59-62 | one more entry at the end of a listing adds one to the count exactly when its name passes the test |
| `ClassCounts.ImagePositionsStep` | phase1_data_setup.py:59-62 | one more entry at the end of a listing adds its position to the image positions exactly when its name passes the test |
| `ClassCounts.CountIsImagePositions` | phase1_data_setup.py:59-62 | the count equals the number of listing positions whose name passes the test |
| `ClassCounts.CountAllIff` | phase1_data_setup.py:59-62 | the count equals the listing's length if and only if every entry is an image name |
| `ClassCounts.CountNoneIff` | phase1_data_setup.py:59-62 | the count is 0 if and only if no entry is an image name |
| `ClassCounts.CountIgnoresCase` | phase1_data_setup.py:59-62 | renaming entries by changing only letter case leaves the count unchanged |
| `ClassCounts.CountClasses` | phase1_data_setup.py:55-63 | succeeds exactly when every class entry is a directory; then the table's keys are exactly the split's entries, each mapped to its own filtered count, which is at most its listing's length; otherwise the error names the first entry that is not a directory |
| `Dominant.MaxFrom` | phase1_data_setup.py:104 | the left-to-right scan with strict replacement ends on a position with a largest count, before which every count is strictly smaller |
| `Dominant.DominantIndex` | phase1_data_setup.py:104 | for a non-empty table, the chosen position has a largest count, and every earlier position has a smaller one |
| `Dominant.DominantClass` | phase1_data_setup.py:104 | given the table and its insertion order (whose entries are exactly the table's keys), there is no dominant class exactly when the table is empty; otherwise it is a key of the table, its count is at least every key's count, and it is the first key in insertion order with that count |
| `Dominant.FirstMaximumIsUnique` | phase1_data_setup.py:104 | any position that is a first maximum is the one chosen, so the tie-break fully determines the result |
| `Dominant.TieGoesToFirst` | phase1_data_setup.py:104 | with two classes tied for the largest count, the one listed first is dominant |
| `SizeSample.SampledNames` | phase1_data_setup.py:84 | the sampled entries are the listing's prefix of length min(25, listing length) |
| `SizeSample.SampleSizes` | phase1_data_setup.py:79-89 | only the first training class is sampled; succeeds exactly when that entry is a directory whose sampled entries all decode; records min(25, entries) sizes, each the decoded size of the entry at that position, and remembers the entry opened last; otherwise names the first entry that failed |
| `SizeSample.DistinctSizes` | phase1_data_setup.py:91-93 | the unique sizes are exactly the sizes that occur in the sample, and there are no more of them than sampled sizes |
| `SizeSample.UniqueSizeCount` | phase1_data_setup.py:91-93 | the unique-size count is at most the number of sampled sizes, and at least 1 when any image was sampled |
| `SizeSample.UniqueCountStep` | phase1_data_setup.py:91-93 | recording one more size adds a unique size exactly when the size was not recorded before |
| `SizeSample.NoRepeatedSizeStep` | phase1_data_setup.py:91-93 | a sequence with one more size has no repetition exactly when the shorter one has none and the new size is new |
| `SizeSample.UniqueCountIsLengthIff` | phase1_data_setup.py:91-93 | the unique-size count equals the number of sampled sizes if and only if no size is recorded twice |
| `PhaseOne.RunSurvey` | phase1_data_setup.py:65-104 | the survey succeeds exactly when both splits' class entries are directories, the sample decodes and opens at least one image; failures come in script order, each naming the first entry that failed; on success the report holds both count tables, the decoded sizes of the first min(25, entries) entries of the first training class in listing order, the number of distinct (width, height) pairs among them (between 1 and the number of sizes), the last sampled entry for the mode, and the first class with the largest training count |

## Left out

- scripts/setup.py is not part of this model. It creates a virtual environment, runs the package installer and the
  dataset-download tool as external processes, copies a credential file and sets its permissions. None of that is
  computation.
- Creating the project directories, installing the download tool and downloading the dataset
  (phase1_data_setup.py:17-41) are filesystem effects and external processes.
- Locating the dataset root as the first entry of the raw-data directory (phase1_data_setup.py:46-50) is not
  modelled. The survey takes the two split listings directly.
- The order and contents of directory listings come from the operating system. They are inputs here.
- Image decoding is replaced by the `decode` map of given sizes. The entry opened last is reported in place of its
  color mode, which is a value of the imaging library.
- The array library's unique-rows operation is modelled as the cardinality of a set of (width, height) pairs.
- Only ASCII letters are lower-cased. Full Unicode case mapping is not modelled.
- Dictionary insertion order is not part of Dafny's `map`. The insertion order of the count table is passed
  alongside it as the split listing. Repeated names in that listing would only repeat keys and do not change which
  key is chosen first.
- Console output and its formatting (phase1_data_setup.py:68-74, 93-99, 106-112) are not modelled, including the
  first five example sizes printed at line 94.
