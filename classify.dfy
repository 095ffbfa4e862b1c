/**
 * `isTextFile`: a template file is copied as bytes when its lower-cased
 * extension is a known binary one or when a zero byte occurs in its first
 * 8000 bytes; otherwise it is read as text and transformed.
 */
module Classify {
  import opened Chars

  newtype byte = b: int | 0 <= b < 256

  const BinaryExtensions: set<string> := {
    ".avif", ".bmp", ".eot", ".gif", ".gz", ".ico", ".jpeg", ".jpg", ".pdf",
    ".png", ".tar", ".tgz", ".ttf", ".webp", ".woff", ".woff2", ".zip"
  }

  /** At most this many leading bytes are scanned for a zero byte. */
  const SampleLimit: nat := 8000

  /** The index of the last `.` in `s`, or -1 when there is none. */
  function LastDot(s: string): (i: int)
    ensures -1 <= i < |s|
    ensures i >= 0 ==> s[i] == '.'
    ensures forall k :: i < k < |s| ==> s[k] != '.'
    decreases |s|
  {
    if |s| == 0 then -1
    else if s[|s| - 1] == '.' then |s| - 1
    else LastDot(s[..|s| - 1])
  }

  /**
   * `path.extname` of a file whose last path component is `base`: the suffix
   * from the last `.`, or empty when there is no dot or the only candidate is
   * the leading dot of a hidden file.
   */
  function ExtName(base: string): (ext: string)
    ensures |ext| <= |base| && ext == base[|base| - |ext|..]
    ensures ext != [] ==> ext[0] == '.' && |ext| < |base| && '.' !in ext[1..]
    ensures ext == [] <==> forall k :: 0 < k < |base| ==> base[k] != '.'
  {
    var i := LastDot(base);
    if i <= 0 then [] else base[i..]
  }

  predicate HasBinaryExtension(base: string) {
    LowerString(ExtName(base)) in BinaryExtensions
  }

  /** `Math.min(content.length, 8000)` */
  function SampleLength(content: seq<byte>): (n: nat)
    ensures n <= |content| && n <= SampleLimit
    ensures n == |content| || n == SampleLimit
  {
    if |content| < SampleLimit then |content| else SampleLimit
  }

  predicate HasZeroInSample(content: seq<byte>) {
    exists i :: 0 <= i < SampleLength(content) && content[i] == 0
  }

  /** The classification `isTextFile` computes. */
  predicate IsText(base: string, content: seq<byte>) {
    !HasBinaryExtension(base) && !HasZeroInSample(content)
  }

  /** `isTextFile`: the extension test, then an index loop over the sample with an early return. */
  method IsTextFile(base: string, content: seq<byte>) returns (text: bool)
    ensures text <==> !HasBinaryExtension(base) && forall i :: 0 <= i < SampleLength(content) ==> content[i] != 0
  {
    var extension := LowerString(ExtName(base));
    if extension in BinaryExtensions {
      return false;
    }
    var sampleLength := SampleLength(content);
    for index := 0 to sampleLength
      invariant forall k :: 0 <= k < index ==> content[k] != 0
    {
      if content[index] == 0 {
        return false;
      }
    }
    return true;
  }

  /** Only the first `min(len, 8000)` bytes matter: bytes from index 8000 on never change the result. */
  lemma SampleDecides(base: string, c: seq<byte>, d: seq<byte>)
    requires c[..SampleLength(c)] == d[..SampleLength(d)]
    ensures IsText(base, c) == IsText(base, d)
  {
    if HasZeroInSample(c) {
      var i :| 0 <= i < SampleLength(c) && c[i] == 0;
      assert c[..SampleLength(c)][i] == 0;
      assert d[i] == 0;
    }
    if HasZeroInSample(d) {
      var i :| 0 <= i < SampleLength(d) && d[i] == 0;
      assert d[..SampleLength(d)][i] == 0;
      assert c[i] == 0;
    }
  }

  /** A zero byte at index 8000 or beyond is ignored. */
  lemma ZeroBeyondSampleIgnored(base: string, c: seq<byte>, k: nat)
    requires SampleLimit <= k < |c|
    ensures IsText(base, c[k := 0]) == IsText(base, c)
  {
    assert c[k := 0][..SampleLimit] == c[..SampleLimit];
    SampleDecides(base, c[k := 0], c);
  }

  /** The extension is the suffix that starts at the last dot, when that dot is not the first character. */
  lemma ExtNameOfSuffix(stem: string, ext: string)
    requires |stem| > 0 && |ext| > 0 && ext[0] == '.' && '.' !in ext[1..]
    ensures ExtName(stem + ext) == ext
  {
    var s := stem + ext;
    var i := LastDot(s);
    assert s[|stem|] == '.';
    forall k | |stem| < k < |s|
      ensures s[k] != '.'
    {
      assert s[k] == ext[1..][k - |stem| - 1];
    }
    assert i == |stem|;
    assert s[i..] == ext;
  }

  /** A file whose last extension is listed, in any letter case, is binary whatever it holds. */
  lemma ListedExtensionIsBinary(stem: string, ext: string, content: seq<byte>)
    requires |stem| > 0 && |ext| > 0 && ext[0] == '.' && '.' !in ext[1..]
    requires LowerString(ext) in BinaryExtensions
    ensures !IsText(stem + ext, content)
  {
    ExtNameOfSuffix(stem, ext);
  }

  lemma UpperCaseExtensionsListed()
    ensures LowerString(".PNG") in BinaryExtensions
    ensures LowerString(".GZ") in BinaryExtensions
  {
    assert LowerString(".PNG") == ".png";
    assert LowerString(".GZ") == ".gz";
  }

  /** `logo.PNG` is binary, and of `app.tar.GZ` only the last extension counts. */
  lemma BinaryExtensionExamples(content: seq<byte>)
    ensures !IsText("logo.PNG", content)
    ensures !IsText("app.tar.GZ", content)
  {
    UpperCaseExtensionsListed();
    assert "logo.PNG" == "logo" + ".PNG";
    ListedExtensionIsBinary("logo", ".PNG", content);
    assert "app.tar.GZ" == "app.tar" + ".GZ";
    ListedExtensionIsBinary("app.tar", ".GZ", content);
  }

  /** With an unlisted extension the file is binary exactly when its sample holds a zero byte. */
  lemma TextFileExamples()
    ensures IsText("index.ts", [104, 105])
    ensures !IsText("index.ts", [104, 0, 105])
  {
    ExtNameOfSuffix("index", ".ts");
    assert "index.ts" == "index" + ".ts";
    assert LowerString(".ts") == ".ts";
    assert [104, 0, 105][1] == 0 as byte;
  }

  /** The leading dot of a hidden file does not start an extension. */
  lemma HiddenFileHasNoExtension(content: seq<byte>)
    requires forall i :: 0 <= i < SampleLength(content) ==> content[i] != 0
    ensures IsText(".png", content)
  {
    assert ExtName(".png") == [] by {
      var s := ".png";
      assert forall k :: 0 < k < |s| ==> s[k] != '.';
    }
  }
}
