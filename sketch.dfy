/**
 * The ink-saving sketch converter of sketch/convert.py: which directory
 * entries are converted and where their output goes (batch_process_images),
 * and the dark-image inversion policy (process_image_for_ink_saving).
 * The OpenCV steps (decode, grayscale conversion, Gaussian blur, Canny,
 * encode) are uninterpreted: they are parameters of the model.
 */
module Sketch {

  datatype Option<T> = None | Some(value: T)

  /** An 8-bit pixel value, as in an OpenCV uint8 buffer. */
  type Byte = x: int | 0 <= x < 256

  // ---------------------------------------------------------------------
  // Names: lower-casing and suffix matching
  // ---------------------------------------------------------------------

  /** str.lower on one character (ASCII letters only). */
  function LowerChar(c: char): char {
    if 'A' <= c <= 'Z' then (c as int + 32) as char else c
  }

  /**
   * str.lower: the length is kept, no upper-case letter remains, each
   * upper-case letter becomes its lower-case partner and every other
   * character is left as it is.
   */
  function Lower(s: string): (r: string)
    ensures |r| == |s|
    ensures forall i :: 0 <= i < |r| ==> !('A' <= r[i] <= 'Z')
    ensures forall i :: 0 <= i < |s| && 'A' <= s[i] <= 'Z' ==> r[i] as int == s[i] as int + 32
    ensures forall i :: 0 <= i < |s| && !('A' <= s[i] <= 'Z') ==> r[i] == s[i]
  {
    seq(|s|, i requires 0 <= i < |s| => LowerChar(s[i]))
  }

  /** str.endswith with a single suffix. */
  predicate EndsWith(s: string, suffix: string) {
    |suffix| <= |s| && s[|s| - |suffix|..] == suffix
  }

  /**
   * str.endswith with a tuple of suffixes: tries them in order, and holds
   * exactly when one of them matches.
   */
  predicate EndsWithAny(s: string, suffixes: seq<string>): (r: bool)
    ensures r <==> exists k :: 0 <= k < |suffixes| && EndsWith(s, suffixes[k])
    decreases |suffixes|
  {
    if |suffixes| == 0 then false
    else
      var rest := EndsWithAny(s, suffixes[1..]);
      assert rest ==> exists k :: 1 <= k < |suffixes| && EndsWith(s, suffixes[k]) by {
        if rest {
          var k :| 0 <= k < |suffixes[1..]| && EndsWith(s, suffixes[1..][k]);
          assert EndsWith(s, suffixes[k + 1]);
        }
      }
      assert (exists k :: 1 <= k < |suffixes| && EndsWith(s, suffixes[k])) ==> rest by {
        if exists k :: 1 <= k < |suffixes| && EndsWith(s, suffixes[k]) {
          var k :| 1 <= k < |suffixes| && EndsWith(s, suffixes[k]);
          assert suffixes[1..][k - 1] == suffixes[k];
        }
      }
      EndsWith(s, suffixes[0]) || rest
  }

  /** The allow-list of image suffixes, in the order the source lists them. */
  const IMAGE_SUFFIXES: seq<string> := [".png", ".jpg", ".jpeg", ".bmp", ".tiff"]

  /** The same list as bare extensions (the text after the final dot). */
  const IMAGE_EXTENSIONS: set<string> := {"png", "jpg", "jpeg", "bmp", "tiff"}

  /**
   * The filter of batch_process_images: the lower-cased name ends with an
   * allowed suffix. Equivalently, the lower-cased name has a final
   * extension and it is one of the listed ones.
   */
  predicate IsImageName(name: string): (r: bool)
    ensures r <==> Extension(Lower(name)).Some? && Extension(Lower(name)).value in IMAGE_EXTENSIONS
  {
    SuffixFilterByExtension(Lower(name));
    EndsWithAny(Lower(name), IMAGE_SUFFIXES)
  }

  /** The text after the last '.', or None when the name has no dot. */
  function Extension(s: string): Option<string>
    decreases |s|
  {
    if s == [] then None
    else if s[|s| - 1] == '.' then Some([])
    else match Extension(s[..|s| - 1])
      case None => None
      case Some(e) => Some(e + [s[|s| - 1]])
  }

  /** Two names that differ only in the case of their letters. */
  predicate SameIgnoringCase(a: string, b: string) {
    |a| == |b| && forall i :: 0 <= i < |a| ==> LowerChar(a[i]) == LowerChar(b[i])
  }

  lemma LowerConcat(a: string, b: string)
    ensures Lower(a + b) == Lower(a) + Lower(b)
  {
    assert forall i :: 0 <= i < |a + b| ==> Lower(a + b)[i] == (Lower(a) + Lower(b))[i];
  }

  /** For a dot-free extension e, ending with "." + e is having extension e. */
  lemma {:induction false} EndsWithDotIff(s: string, e: string)
    requires '.' !in e
    ensures EndsWith(s, ['.'] + e) <==> Extension(s) == Some(e)
    decreases |e|
  {
    if e == [] {
      if s != [] && s[|s| - 1] != '.' {
        match Extension(s[..|s| - 1])
        case None =>
        case Some(e') => assert |Extension(s).value| > 0;
      }
    } else if s == [] {
    } else {
      var c := e[|e| - 1];
      var e' := e[..|e| - 1];
      var p := s[..|s| - 1];
      assert e == e' + [c];
      assert '.' !in e' by {
        forall i | 0 <= i < |e'| ensures e'[i] != '.' { assert e'[i] == e[i]; }
      }
      EndsWithDotIff(p, e');
      var d := ['.'] + e;
      assert d == ['.'] + e' + [c];
      if EndsWith(s, d) {
        assert s[|s| - 1] == c;
        assert p[|p| - |['.'] + e'|..] == s[|s| - |d|..|s| - 1];
        assert EndsWith(p, ['.'] + e');
      }
      if Extension(s) == Some(e) {
        assert s[|s| - 1] != '.';
        match Extension(p)
        case None =>
        case Some(x) =>
          assert x + [s[|s| - 1]] == e' + [c];
          assert x == (x + [s[|s| - 1]])[..|x|];
          assert x == e';
        assert s[|s| - 1] == c;
        assert s[|s| - |d|..] == p[|p| - |['.'] + e'|..] + [c];
      }
    }
  }

  /**
   * The suffix test of the filter read through extensions: a string ends
   * with one of the listed suffixes exactly when the text after its last
   * dot is one of the listed extensions.
   */
  lemma SuffixFilterByExtension(s: string)
    ensures EndsWithAny(s, IMAGE_SUFFIXES) <==> (Extension(s).Some? && Extension(s).value in IMAGE_EXTENSIONS)
  {
    assert ".png" == ['.'] + "png";
    assert ".jpg" == ['.'] + "jpg";
    assert ".jpeg" == ['.'] + "jpeg";
    assert ".bmp" == ['.'] + "bmp";
    assert ".tiff" == ['.'] + "tiff";
    EndsWithDotIff(s, "png");
    EndsWithDotIff(s, "jpg");
    EndsWithDotIff(s, "jpeg");
    EndsWithDotIff(s, "bmp");
    EndsWithDotIff(s, "tiff");
    if EndsWithAny(s, IMAGE_SUFFIXES) {
      var k :| 0 <= k < |IMAGE_SUFFIXES| && EndsWith(s, IMAGE_SUFFIXES[k]);
      assert k == 0 || k == 1 || k == 2 || k == 3 || k == 4;
    }
    if Extension(s).Some? && Extension(s).value in IMAGE_EXTENSIONS {
      var e := Extension(s).value;
      if e == "png" { assert EndsWith(s, IMAGE_SUFFIXES[0]); }
      else if e == "jpg" { assert EndsWith(s, IMAGE_SUFFIXES[1]); }
      else if e == "jpeg" { assert EndsWith(s, IMAGE_SUFFIXES[2]); }
      else if e == "bmp" { assert EndsWith(s, IMAGE_SUFFIXES[3]); }
      else { assert EndsWith(s, IMAGE_SUFFIXES[4]); }
    }
  }

  /** Any stem followed by one of the listed suffixes, in any casing, is converted. */
  lemma ListedSuffixConverted(stem: string, suffix: string)
    requires Lower(suffix) in IMAGE_SUFFIXES
    ensures IsImageName(stem + suffix)
  {
    LowerConcat(stem, suffix);
    var s := Lower(stem + suffix);
    var k :| 0 <= k < |IMAGE_SUFFIXES| && IMAGE_SUFFIXES[k] == Lower(suffix);
    assert s[|s| - |Lower(suffix)|..] == Lower(suffix);
    assert EndsWith(s, IMAGE_SUFFIXES[k]);
  }

  /**
   * A name whose lower-cased form ends with a dot and a dot-free extension
   * that is not listed is skipped.
   */
  lemma UnlistedExtensionSkipped(name: string, ext: string)
    requires '.' !in ext && ext !in IMAGE_EXTENSIONS
    requires EndsWith(Lower(name), ['.'] + ext)
    ensures !IsImageName(name)
  {
    EndsWithDotIff(Lower(name), ext);
  }

  /** A name ending in ".tif" (single f) or ".gif", in any casing, is skipped. */
  lemma TifAndGifSkipped(name: string)
    requires EndsWith(Lower(name), ".tif") || EndsWith(Lower(name), ".gif")
    ensures !IsImageName(name)
  {
    if EndsWith(Lower(name), ".tif") {
      assert ".tif" == ['.'] + "tif";
      UnlistedExtensionSkipped(name, "tif");
    } else {
      assert ".gif" == ['.'] + "gif";
      UnlistedExtensionSkipped(name, "gif");
    }
  }

  /** The filter is case-insensitive: re-casing a name keeps the decision. */
  lemma CaseInsensitive(a: string, b: string)
    requires SameIgnoringCase(a, b)
    ensures IsImageName(a) == IsImageName(b)
  {
    assert Lower(a) == Lower(b);
  }

  // ---------------------------------------------------------------------
  // Paths: os.path.join and os.path.basename (POSIX)
  // ---------------------------------------------------------------------

  /**
   * posixpath.join with two components: an absolute name replaces the
   * directory; otherwise the result starts with the directory, ends with
   * the name, and one '/' separates them unless the directory is empty or
   * already ends with one.
   */
  function JoinPath(dir: string, name: string): (r: string)
    ensures |name| > 0 && name[0] == '/' ==> r == name
    ensures !(|name| > 0 && name[0] == '/') ==>
      && |dir| + |name| <= |r|
      && r[..|dir|] == dir
      && r[|r| - |name|..] == name
      && (if dir == [] || dir[|dir| - 1] == '/'
          then |r| == |dir| + |name|
          else |r| == |dir| + 1 + |name| && r[|dir|] == '/')
  {
    if |name| > 0 && name[0] == '/' then name
    else if dir == [] || dir[|dir| - 1] == '/' then dir + name
    else dir + "/" + name
  }

  /** posixpath.basename: the text after the last '/'. */
  function BaseName(p: string): string
    decreases |p|
  {
    if p == [] then []
    else if p[|p| - 1] == '/' then []
    else BaseName(p[..|p| - 1]) + [p[|p| - 1]]
  }

  lemma {:induction false} BaseNameAfterSeparator(prefix: string, name: string)
    requires prefix == [] || prefix[|prefix| - 1] == '/'
    requires '/' !in name
    ensures BaseName(prefix + name) == name
    decreases |name|
  {
    if name == [] {
      assert prefix + name == prefix;
    } else {
      var init := name[..|name| - 1];
      assert '/' !in init by {
        forall i | 0 <= i < |init| ensures init[i] != '/' { assert init[i] == name[i]; }
      }
      BaseNameAfterSeparator(prefix, init);
      var p := prefix + name;
      assert p[..|p| - 1] == prefix + init;
      assert p[|p| - 1] == name[|name| - 1];
      assert init + [name[|name| - 1]] == name;
    }
  }

  /** Joining a plain entry name under a directory keeps the entry's file name. */
  lemma JoinKeepsFileName(dir: string, name: string)
    requires '/' !in name
    ensures BaseName(JoinPath(dir, name)) == name
  {
    if |name| > 0 {
      assert name[0] in name;
    }
    if dir == [] || dir[|dir| - 1] == '/' {
      BaseNameAfterSeparator(dir, name);
    } else {
      assert dir + "/" + name == (dir + "/") + name;
      BaseNameAfterSeparator(dir + "/", name);
    }
  }

  // ---------------------------------------------------------------------
  // The batch loop of batch_process_images
  // ---------------------------------------------------------------------

  /** What the loop does with one directory entry. */
  datatype Step = Convert(inputPath: string, outputPath: string) | Skip(name: string)

  /** The number of elements of s that satisfy p. */
  function CountWhere<T>(s: seq<T>, p: T -> bool): (n: nat)
    ensures n <= |s|
  {
    if s == [] then 0
    else (if p(s[0]) then 1 else 0) + CountWhere(s[1..], p)
  }

  /** The number of entries the filter accepts. */
  function CountImages(entries: seq<string>): nat {
    CountWhere(entries, IsImageName)
  }

  predicate IsConversion(step: Step) { step.Convert? }

  predicate IsSkip(step: Step) { step.Skip? }

  /**
   * The loop body for one entry: an image is converted from
   * inputDir/name to outputDir/name, any other entry is skipped.
   */
  function StepFor(inputDir: string, outputDir: string, name: string): Step {
    if IsImageName(name)
    then Convert(JoinPath(inputDir, name), JoinPath(outputDir, name))
    else Skip(name)
  }

  /** The steps the loop takes for the entries, one per entry and in their order. */
  predicate IsPlan(inputDir: string, outputDir: string, entries: seq<string>, steps: seq<Step>) {
    && |steps| == |entries|
    && forall i :: 0 <= i < |entries| ==> steps[i] == StepFor(inputDir, outputDir, entries[i])
  }

  lemma PlanExtend(inputDir: string, outputDir: string, entries: seq<string>, steps: seq<Step>, name: string)
    requires IsPlan(inputDir, outputDir, entries, steps)
    ensures IsPlan(inputDir, outputDir, entries + [name], steps + [StepFor(inputDir, outputDir, name)])
  {
  }

  /**
   * batch_process_images: visits the entries in listing order; an image
   * is converted from inputDir/name to outputDir/name, any other entry is
   * skipped. The conversions themselves are the steps it returns.
   */
  method BatchProcess(inputDir: string, outputDir: string, entries: seq<string>)
    returns (steps: seq<Step>)
    ensures IsPlan(inputDir, outputDir, entries, steps)
  {
    steps := [];
    for i := 0 to |entries|
      invariant |steps| == i
      invariant IsPlan(inputDir, outputDir, entries[..i], steps)
    {
      var filename := entries[i];
      var inputPath := JoinPath(inputDir, filename);
      var step: Step;
      if IsImageName(filename) {
        var outputPath := JoinPath(outputDir, filename);
        step := Convert(inputPath, outputPath);
      } else {
        step := Skip(filename);
      }
      PlanExtend(inputDir, outputDir, entries[..i], steps, filename);
      assert entries[..i + 1] == entries[..i] + [filename];
      steps := steps + [step];
    }
    assert entries[..|entries|] == entries;
  }

  /**
   * Every entry is either converted or skipped: the number converted is the
   * number of image names and the rest are skipped.
   */
  lemma {:induction false} PlanCounts(inputDir: string, outputDir: string, entries: seq<string>, steps: seq<Step>)
    requires IsPlan(inputDir, outputDir, entries, steps)
    ensures CountWhere(steps, IsConversion) == CountImages(entries)
    ensures CountWhere(steps, IsSkip) == |entries| - CountImages(entries)
    decreases |entries|
  {
    if entries != [] {
      assert IsPlan(inputDir, outputDir, entries[1..], steps[1..]) by {
        forall i | 0 <= i < |entries[1..]|
          ensures steps[1..][i] == StepFor(inputDir, outputDir, entries[1..][i])
        {
          assert entries[1..][i] == entries[i + 1];
          assert steps[1..][i] == steps[i + 1];
        }
      }
      PlanCounts(inputDir, outputDir, entries[1..], steps[1..]);
      assert steps[0] == StepFor(inputDir, outputDir, entries[0]);
    }
  }

  /** Every converted entry is read from and written to paths with its own file name. */
  lemma ConvertedKeepFileName(inputDir: string, outputDir: string, entries: seq<string>, steps: seq<Step>, i: nat)
    requires IsPlan(inputDir, outputDir, entries, steps)
    requires i < |entries| && '/' !in entries[i]
    ensures steps[i].Convert? <==> IsImageName(entries[i])
    ensures steps[i].Convert? ==>
      BaseName(steps[i].inputPath) == entries[i] && BaseName(steps[i].outputPath) == entries[i]
  {
    JoinKeepsFileName(inputDir, entries[i]);
    JoinKeepsFileName(outputDir, entries[i]);
  }

  lemma {:induction false} CountWhereConcat<T>(a: seq<T>, b: seq<T>, p: T -> bool)
    ensures CountWhere(a + b, p) == CountWhere(a, p) + CountWhere(b, p)
    decreases |a|
  {
    if a == [] {
      assert a + b == b;
    } else {
      assert (a + b)[1..] == a[1..] + b;
      CountWhereConcat(a[1..], b, p);
    }
  }

  /** Removing the element at j removes one occurrence of it from the multiset. */
  lemma MultisetRemoveAt<T>(b: seq<T>, j: nat)
    requires j < |b|
    ensures multiset(b[..j] + b[j + 1..]) == multiset(b) - multiset{b[j]}
  {
    assert b == b[..j] + [b[j]] + b[j + 1..];
  }

  /** Removing the element at j lowers the count by one exactly when that element satisfies p. */
  lemma CountWhereRemoveAt<T>(b: seq<T>, j: nat, p: T -> bool)
    requires j < |b|
    ensures CountWhere(b, p) == (if p(b[j]) then 1 else 0) + CountWhere(b[..j] + b[j + 1..], p)
  {
    assert b == b[..j] + ([b[j]] + b[j + 1..]);
    CountWhereConcat(b[..j], [b[j]] + b[j + 1..], p);
    CountWhereConcat([b[j]], b[j + 1..], p);
    CountWhereConcat(b[..j], b[j + 1..], p);
  }

  /** Counting is independent of the order of the elements. */
  lemma {:induction false} CountWhereOrderIndependent<T>(a: seq<T>, b: seq<T>, p: T -> bool)
    requires multiset(a) == multiset(b)
    ensures CountWhere(a, p) == CountWhere(b, p)
    decreases |a|
  {
    if a == [] {
      assert |b| == |multiset(b)| == 0;
    } else {
      assert a[0] in multiset(b);
      var j :| 0 <= j < |b| && b[j] == a[0];
      MultisetRemoveAt(a, 0);
      MultisetRemoveAt(b, j);
      assert a[..0] + a[1..] == a[1..];
      CountWhereOrderIndependent(a[1..], b[..j] + b[j + 1..], p);
      CountWhereRemoveAt(b, j, p);
    }
  }

  /** The number of conversions does not depend on the listing order. */
  lemma CountImagesOrderIndependent(a: seq<string>, b: seq<string>)
    requires multiset(a) == multiset(b)
    ensures CountImages(a) == CountImages(b)
  {
    CountWhereOrderIndependent(a, b, IsImageName);
  }

  // ---------------------------------------------------------------------
  // The ink-saving policy of process_image_for_ink_saving
  // ---------------------------------------------------------------------

  /** A single-channel 8-bit image: dimensions and row-major pixels. */
  datatype Plane = Plane(width: nat, height: nat, pixels: seq<Byte>)

  /** The pixel buffer holds exactly width * height pixels. */
  predicate Valid(p: Plane) {
    |p.pixels| == p.width * p.height
  }

  /** The sum of the pixel values of a buffer. */
  function Sum(s: seq<Byte>): (r: nat)
    ensures r <= 255 * |s|
  {
    if s == [] then 0 else s[0] + Sum(s[1..])
  }

  /**
   * "mean brightness < 128", compared exactly as sum < 128 * count. For a
   * non-empty buffer this is the arithmetic mean being below 128; an empty
   * buffer (whose numpy mean is NaN) is not dark.
   */
  predicate IsDark(gray: seq<Byte>): (r: bool)
    ensures |gray| > 0 ==> (r <==> (Sum(gray) as real) / (|gray| as real) < 128.0)
    ensures gray == [] ==> !r
  {
    if |gray| > 0 then MeanBelowIff(Sum(gray), |gray|, 128); Sum(gray) < 128 * |gray|
    else false
  }

  /** cv2.bitwise_not on uint8: every byte x becomes 255 - x. */
  function Invert(s: seq<Byte>): (r: seq<Byte>)
    ensures |r| == |s|
    ensures forall i :: 0 <= i < |s| ==> r[i] as int + s[i] as int == 255
  {
    seq(|s|, i requires 0 <= i < |s| => 255 - s[i])
  }

  /** The edge map after the ink-saving decision. */
  function InkSaving(gray: Plane, edges: Plane): (r: Plane)
    ensures r.width == edges.width && r.height == edges.height
    ensures |r.pixels| == |edges.pixels|
    ensures Valid(edges) ==> Valid(r)
    ensures !IsDark(gray.pixels) ==> r == edges
    ensures IsDark(gray.pixels) ==> forall i :: 0 <= i < |edges.pixels| ==> r.pixels[i] == 255 - edges.pixels[i]
  {
    if IsDark(gray.pixels) then edges.(pixels := Invert(edges.pixels)) else edges
  }

  /**
   * process_image_for_ink_saving on a decoded image: grayscale, 5x5 blur,
   * Canny(30, 100), then the ink-saving decision on the grayscale mean.
   * The three OpenCV steps are given as functions.
   */
  function ProcessImage<Image>(
    image: Image,
    cvtColor: Image -> Plane,
    gaussianBlur: Plane -> Plane,
    canny: Plane -> Plane): (r: Plane)
    ensures r.width == canny(gaussianBlur(cvtColor(image))).width
    ensures r.height == canny(gaussianBlur(cvtColor(image))).height
    ensures Valid(canny(gaussianBlur(cvtColor(image)))) ==> Valid(r)
    ensures IsDark(cvtColor(image).pixels) ==> r.pixels == Invert(canny(gaussianBlur(cvtColor(image))).pixels)
    ensures !IsDark(cvtColor(image).pixels) ==> r == canny(gaussianBlur(cvtColor(image)))
  {
    var gray := cvtColor(image);
    var blurred := gaussianBlur(gray);
    var edges := canny(blurred);
    InkSaving(gray, edges)
  }

  lemma QuotientBelow(s: real, n: real, bound: real)
    requires n > 0.0
    ensures s / n < bound <==> s < bound * n
  {
    var q := s / n;
    assert q * n == s;
    if q < bound {
      assert (bound - q) * n > 0.0;
    } else {
      assert (q - bound) * n >= 0.0;
    }
  }

  lemma MeanBelowIff(total: nat, count: nat, bound: nat)
    requires count > 0
    ensures (total as real) / (count as real) < bound as real <==> total < bound * count
  {
    QuotientBelow(total as real, count as real, bound as real);
    assert (bound * count) as real == (bound as real) * (count as real);
  }

  lemma {:induction false} SumUniform(n: nat, v: Byte)
    ensures Sum(seq(n, _ => v)) == n * v
  {
    if n > 0 {
      assert seq(n, _ => v)[1..] == seq(n - 1, _ => v);
      SumUniform(n - 1, v);
    }
  }

  /**
   * A non-empty image of uniform gray level v is dark exactly when v < 128;
   * in particular a mean of exactly 128 is not inverted.
   */
  lemma UniformImageDarkIff(n: nat, v: Byte)
    requires n > 0
    ensures IsDark(seq(n, _ => v)) <==> v < 128
  {
    SumUniform(n, v);
    if v < 128 {
      assert n * v < n * 128;
    } else {
      assert n * v >= n * 128;
    }
  }

  /** Inverting twice restores the edge map. */
  lemma InvertInvolutive(s: seq<Byte>)
    ensures Invert(Invert(s)) == s
  {
    assert forall i :: 0 <= i < |s| ==> Invert(Invert(s))[i] == s[i];
  }

  /** A binary edge map (0 and 255 only) stays binary with the two values swapped. */
  lemma InvertSwapsBinary(s: seq<Byte>)
    requires forall i :: 0 <= i < |s| ==> s[i] == 0 || s[i] == 255
    ensures forall i :: 0 <= i < |s| ==> (Invert(s)[i] == 255 <==> s[i] == 0)
    ensures forall i :: 0 <= i < |s| ==> (Invert(s)[i] == 0 <==> s[i] == 255)
  {
  }

  /**
   * Polarity of the output for a binary edge map: an output pixel is white
   * exactly when "is an edge" differs from "the image is dark".
   */
  lemma OutputPolarity(gray: Plane, edges: Plane)
    requires forall i :: 0 <= i < |edges.pixels| ==> edges.pixels[i] == 0 || edges.pixels[i] == 255
    ensures forall i :: 0 <= i < |edges.pixels| ==>
      (InkSaving(gray, edges).pixels[i] == 255 <==> (edges.pixels[i] == 255) != IsDark(gray.pixels))
  {
  }
}
