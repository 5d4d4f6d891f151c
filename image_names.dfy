/**
 * The test that decides whether a directory entry is counted as an image:
 * its lower-cased name ends with ".jpg", ".png" or ".jpeg". Only the name is
 * looked at; an entry that is itself a directory but has such a name counts.
 * Lower-casing is modelled for ASCII letters only.
 */
module ImageNames {

  /** The accepted file-name endings, in the order the survey lists them. */
  const ImageExtensions: seq<string> := [".jpg", ".png", ".jpeg"]

  predicate IsUpperAscii(c: char) {
    'A' <= c <= 'Z'
  }

  predicate IsLowerAscii(c: char) {
    'a' <= c <= 'z'
  }

  function ToLower(c: char): (r: char)
    ensures IsUpperAscii(c) ==> IsLowerAscii(r) && r as int - c as int == 'a' as int - 'A' as int
    ensures !IsUpperAscii(c) ==> r == c
  {
    if IsUpperAscii(c) then (c as int - 'A' as int + 'a' as int) as char else c
  }

  function ToUpper(c: char): (r: char)
    ensures IsLowerAscii(c) ==> IsUpperAscii(r) && c as int - r as int == 'a' as int - 'A' as int
    ensures !IsLowerAscii(c) ==> r == c
  {
    if IsLowerAscii(c) then (c as int - 'a' as int + 'A' as int) as char else c
  }

  /** The name with every ASCII upper-case letter replaced by its lower-case one. */
  function Lower(s: string): (r: string)
    ensures |r| == |s|
    ensures forall i :: 0 <= i < |s| ==> r[i] == ToLower(s[i])
  {
    if s == [] then [] else [ToLower(s[0])] + Lower(s[1..])
  }

  /** The name with every ASCII lower-case letter replaced by its upper-case one.
      The survey never upper-cases; this only states the case-change corollary below. */
  function Upper(s: string): (r: string)
    ensures |r| == |s|
    ensures forall i :: 0 <= i < |s| ==> r[i] == ToUpper(s[i])
  {
    if s == [] then [] else [ToUpper(s[0])] + Upper(s[1..])
  }

  /** Whether `s` ends with `suffix`, as a string's suffix test does. */
  predicate EndsWith(s: string, suffix: string) {
    |suffix| <= |s| && s[|s| - |suffix|..] == suffix
  }

  /** Whether the entry name is counted: the lower-cased name ends with one of the extensions. */
  predicate IsImageName(name: string) {
    exists i :: 0 <= i < |ImageExtensions| && EndsWith(Lower(name), ImageExtensions[i])
  }

  /** The last |ext| characters of `name`, each lower-cased, spell `ext`. */
  predicate HasExtensionIgnoringCase(name: string, ext: string) {
    |ext| <= |name| && forall k :: 0 <= k < |ext| ==> ToLower(name[|name| - |ext| + k]) == ext[k]
  }

  /** Two names that differ only in the case of ASCII letters. */
  predicate SameIgnoringCase(a: string, b: string) {
    |a| == |b| && forall i :: 0 <= i < |a| ==> ToLower(a[i]) == ToLower(b[i])
  }

  /** Lower-casing whole names and comparing suffixes is the same as comparing the
      last characters one by one, lower-casing only the name's side. */
  lemma EndsWithLowerIff(name: string, ext: string)
    ensures EndsWith(Lower(name), ext) <==> HasExtensionIgnoringCase(name, ext)
  {
    var l := Lower(name);
    if |ext| <= |name| {
      var tail := l[|name| - |ext|..];
      assert |tail| == |ext|;
      assert forall k :: 0 <= k < |ext| ==> tail[k] == ToLower(name[|name| - |ext| + k]);
      assert EndsWith(l, ext) <==> tail == ext;
    }
  }

  /** A name is counted exactly when it ends, ignoring case, with one of the three extensions. */
  lemma ImageNameByCharacters(name: string)
    ensures IsImageName(name) <==>
              HasExtensionIgnoringCase(name, ".jpg")
              || HasExtensionIgnoringCase(name, ".png")
              || HasExtensionIgnoringCase(name, ".jpeg")
  {
    EndsWithLowerIff(name, ".jpg");
    EndsWithLowerIff(name, ".png");
    EndsWithLowerIff(name, ".jpeg");
    assert ImageExtensions[0] == ".jpg" && ImageExtensions[1] == ".png" && ImageExtensions[2] == ".jpeg";
  }

  /** Names that agree up to letter case have the same lower-cased form. */
  lemma LowerIgnoresCase(a: string, b: string)
    requires SameIgnoringCase(a, b)
    ensures Lower(a) == Lower(b)
  {
  }

  /** Matching is case-insensitive: changing the case of letters never changes whether a name is counted. */
  lemma IsImageNameIgnoresCase(a: string, b: string)
    requires SameIgnoringCase(a, b)
    ensures IsImageName(a) <==> IsImageName(b)
  {
  }

  /** Upper-casing or lower-casing a name keeps whether it is counted. */
  lemma IsImageNameUnderCaseChange(name: string)
    ensures IsImageName(Upper(name)) <==> IsImageName(name)
    ensures IsImageName(Lower(name)) <==> IsImageName(name)
  {
    assert SameIgnoringCase(Upper(name), name) by {
      forall i | 0 <= i < |name| ensures ToLower(Upper(name)[i]) == ToLower(name[i]) {
        assert Upper(name)[i] == ToUpper(name[i]);
      }
    }
    IsImageNameIgnoresCase(Upper(name), name);
    assert SameIgnoringCase(Lower(name), name) by {
      forall i | 0 <= i < |name| ensures ToLower(Lower(name)[i]) == ToLower(name[i]) {
        assert Lower(name)[i] == ToLower(name[i]);
      }
    }
    IsImageNameIgnoresCase(Lower(name), name);
  }

  /** A name that ends, ignoring case, with one of the extensions is counted. */
  lemma CountedByExtension(name: string, i: nat)
    requires i < |ImageExtensions| && HasExtensionIgnoringCase(name, ImageExtensions[i])
    ensures IsImageName(name)
  {
    EndsWithLowerIff(name, ImageExtensions[i]);
  }

  /** Every extension ends in 'g', so a name whose last letter is not a 'g' or 'G' is not counted. */
  lemma NotCountedUnlessLastIsG(name: string)
    requires name == [] || ToLower(name[|name| - 1]) != 'g'
    ensures !IsImageName(name)
  {
  }

  /** A name with an upper-case `.JPG` extension is counted. */
  lemma UpperCaseJpgCounted()
    ensures IsImageName("Tr-gl_0010.JPG")
  {
    var a := "Tr-gl_0010.JPG";
    assert HasExtensionIgnoringCase(a, ImageExtensions[0]) by {
      assert a[10] == '.' && a[11] == 'J' && a[12] == 'P' && a[13] == 'G';
    }
    CountedByExtension(a, 0);
  }

  /** The five-letter extension is accepted in mixed case. */
  lemma MixedCaseJpegCounted()
    ensures IsImageName("scan.Jpeg")
  {
    var b := "scan.Jpeg";
    assert HasExtensionIgnoringCase(b, ImageExtensions[2]) by {
      assert b[4] == '.' && b[5] == 'J' && b[6] == 'p' && b[7] == 'e' && b[8] == 'g';
    }
    CountedByExtension(b, 2);
  }

  /** A name that is only the extension, with nothing before the dot, is counted. */
  lemma BareExtensionCounted()
    ensures IsImageName(".png")
  {
    assert HasExtensionIgnoringCase(".png", ImageExtensions[1]);
    CountedByExtension(".png", 1);
  }

  /** Another extension, and a truncated one, are not counted. */
  lemma OtherExtensionsNotCounted()
    ensures !IsImageName("notes.txt")
    ensures !IsImageName("scan.jpe")
  {
    NotCountedUnlessLastIsG("notes.txt");
    NotCountedUnlessLastIsG("scan.jpe");
  }

  /** Ending in the letters of an extension without its dot is not enough. */
  lemma MissingDotNotCounted()
    ensures !IsImageName("scan_jpg")
  {
    var d := "scan_jpg";
    ImageNameByCharacters(d);
    assert ToLower(d[4]) != '.' && ToLower(d[3]) != '.';
  }
}
