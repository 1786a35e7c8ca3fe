/**
 * Which directory entries the converter treats as images (IMAGE_EXTENSIONS and
 * is_image_file) and which decoder load_image chooses for a path.
 */
module Classify {
  import opened Paths

  /** IMAGE_EXTENSIONS: the nine supported extensions, lower-case and with their dot. */
  const ImageExtensions: set<string> :=
    {".jpg", ".jpeg", ".png", ".bmp", ".gif", ".tiff", ".webp", ".heic", ".heif"}

  /** The extensions that load_image sends to the HEIF reader. */
  const HeifExtensions: set<string> := {".heic", ".heif"}

  /** is_image_file: the extension of the lower-cased name is a supported one. */
  predicate IsImageFile(filename: string) {
    Extension(Lower(filename)) in ImageExtensions
  }

  /** The two decoding paths of load_image. */
  datatype Decoder = HeifDecoder | GeneralDecoder

  /** The dispatch test of load_image on the lower-cased extension of the path. */
  function DecoderFor(path: string): Decoder {
    if Extension(Lower(path)) in HeifExtensions then HeifDecoder else GeneralDecoder
  }

  /** Only image files are sent to the HEIF reader. */
  lemma HeifOnlyForImages(path: string)
    ensures DecoderFor(path) == HeifDecoder ==> IsImageFile(path)
  {
  }

  /** A set of extensions each of which is a dot followed by neither dots nor separators. */
  ghost predicate WellFormedExtensions(exts: set<string>) {
    forall e :: e in exts ==> ExtensionShape(e)
  }

  /** A dot followed by characters that are neither dots nor separators. */
  predicate ExtensionShape(e: string) {
    |e| >= 1 && e[0] == '.' && forall j | 1 <= j < |e| :: e[j] != '.' && e[j] != '/'
  }

  /** The supported extensions are well formed, the HEIF pair is among them, and the empty extension is not. */
  lemma SupportedExtensionsWellFormed()
    ensures WellFormedExtensions(ImageExtensions)
    ensures WellFormedExtensions(HeifExtensions)
    ensures HeifExtensions <= ImageExtensions
    ensures [] !in ImageExtensions
  {
  }

  /**
   * Reference definition of "the slash-free name g ends in one of exts": some member
   * is a suffix of it, and what precedes that suffix is not dots alone.
   */
  ghost predicate EndsWithOneOf(g: string, exts: set<string>) {
    exists e :: e in exts && |e| <= |g| && g[|g| - |e|..] == e && HasNonDotIn(g, 0, |g| - |e|)
  }

  /** For a slash-free name, an extension in exts is a suffix of the name that follows a non-dot character. */
  lemma ExtensionInBySuffix(g: string, exts: set<string>)
    requires forall j | 0 <= j < |g| :: g[j] != '/'
    requires WellFormedExtensions(exts)
    requires [] !in exts
    ensures Extension(g) in exts ==> EndsWithOneOf(g, exts)
  {
    if Extension(g) in exts {
      var e := Extension(g);
      ExtensionSound(g);
      var k := |g| - |e|;
      var i :| 0 <= i < k && g[i] != '.' && g[i] != '/' && forall m | i < m < k :: g[m] != '/';
      NonDotIn(g, 0, k, i);
    }
  }

  /** Conversely, such a suffix from exts is the extension that splitext computes. */
  lemma SuffixInExtension(g: string, exts: set<string>)
    requires forall j | 0 <= j < |g| :: g[j] != '/'
    requires WellFormedExtensions(exts)
    ensures EndsWithOneOf(g, exts) ==> Extension(g) in exts
  {
    if EndsWithOneOf(g, exts) {
      var e :| e in exts && |e| <= |g| && g[|g| - |e|..] == e && HasNonDotIn(g, 0, |g| - |e|);
      var k := |g| - |e|;
      assert ExtensionShape(e);
      assert forall j | k <= j < |g| :: g[j] == e[j - k];
      var i := NonDotWitness(g, 0, k);
      assert ExtensionAt(g, k);
      ExtensionComplete(g, e);
    }
  }

  /** For a slash-free name, the splitext test of its lower-cased form against exts is the suffix test. */
  lemma ExtensionInByName(f: string, exts: set<string>)
    requires '/' !in f
    requires WellFormedExtensions(exts)
    requires [] !in exts
    ensures Extension(Lower(f)) in exts <==> EndsWithOneOf(Lower(f), exts)
  {
    LowerKeepsPunctuation(f);
    ExtensionInBySuffix(Lower(f), exts);
    SuffixInExtension(Lower(f), exts);
  }

  /** is_image_file, restated: the lower-cased name ends in a supported extension that follows a non-dot character. */
  lemma ImageFileByName(f: string)
    requires '/' !in f
    ensures IsImageFile(f) <==> EndsWithOneOf(Lower(f), ImageExtensions)
  {
    SupportedExtensionsWellFormed();
    ExtensionInByName(f, ImageExtensions);
  }

  /** The HEIF branch of load_image, restated in the same way for a slash-free name. */
  lemma HeifByName(f: string)
    requires '/' !in f
    ensures DecoderFor(f) == HeifDecoder <==> EndsWithOneOf(Lower(f), HeifExtensions)
  {
    SupportedExtensionsWellFormed();
    ExtensionInByName(f, HeifExtensions);
  }

  /** Classification ignores case: a name and its lower-cased form are classified alike. */
  lemma ImageFileIgnoresCase(f: string)
    ensures IsImageFile(f) == IsImageFile(Lower(f))
    ensures DecoderFor(f) == DecoderFor(Lower(f))
  {
    LowerIdempotent(f);
  }

  /**
   * load_image receives the joined path, is_image_file the bare name: for a slash-free
   * name both see the same extension, so the dispatch agrees with the name's extension.
   */
  lemma ClassifyJoinedPath(dir: string, name: string)
    requires '/' !in name
    ensures IsImageFile(Join(dir, name)) == IsImageFile(name)
    ensures DecoderFor(Join(dir, name)) == DecoderFor(name)
  {
    LowerJoin(dir, name);
    LowerKeepsPunctuation(name);
    ExtensionOfJoin(Lower(dir), Lower(name));
  }

  /**
   * A name whose first character is not a dot, and whose last dot follows every separator,
   * is classified by the lower-cased suffix from that dot.
   */
  lemma ClassifyByLastDot(f: string, k: int)
    requires 0 < k < |f| && f[0] != '.' && f[k] == '.'
    requires forall j | 0 <= j < |f| :: f[j] != '/'
    requires forall j | k < j < |f| :: f[j] != '.'
    ensures IsImageFile(f) <==> Lower(f[k..]) in ImageExtensions
    ensures DecoderFor(f) == HeifDecoder <==> Lower(f[k..]) in HeifExtensions
  {
    var g := Lower(f);
    LowerKeepsPunctuation(f);
    assert f == f[..k] + f[k..];
    LowerConcat(f[..k], f[k..]);
    assert g[k..] == Lower(f[k..]);
    ExtensionFrom(g, 0, k);
  }

  /** A name whose last dot is preceded only by dots has no extension and is no image file. */
  lemma LeadingDotsUnclassified(f: string, k: int)
    requires 0 <= k < |f|
    requires forall i | 0 <= i <= k :: f[i] == '.'
    requires forall j | k < j < |f| :: f[j] != '.'
    ensures !IsImageFile(f) && DecoderFor(f) == GeneralDecoder
  {
    var g := Lower(f);
    LowerKeepsPunctuation(f);
    RFindSpec(g, '.');
    RFindSpec(g, '/');
    assert g[k] == '.';
    assert RFind(g, '.') == k;
    var sep := RFind(g, '/');
    if k > sep && HasNonDotIn(g, sep + 1, k) {
      var i := NonDotWitness(g, sep + 1, k);
      assert false;
    }
    assert Extension(g) == [];
    SupportedExtensionsWellFormed();
  }

  /** A name without a dot has no extension and is no image file. */
  lemma DotlessUnclassified(f: string)
    requires forall j | 0 <= j < |f| :: f[j] != '.'
    ensures !IsImageFile(f) && DecoderFor(f) == GeneralDecoder
  {
    var g := Lower(f);
    LowerKeepsPunctuation(f);
    RFindSpec(g, '.');
    assert RFind(g, '.') == -1;
    assert Extension(g) == [];
    SupportedExtensionsWellFormed();
  }

  /** The extension is taken from the last dot: x.txt.png is accepted ... */
  lemma LastDotAccepts()
    ensures IsImageFile("x.txt.png")
  {
    ClassifyByLastDot("x.txt.png", 5);
    assert "x.txt.png"[5..] == ".png";
    LowerOfLowerCase(".png");
  }

  /** ... and x.png.txt is not. */
  lemma LastDotRejects()
    ensures !IsImageFile("x.png.txt")
  {
    ClassifyByLastDot("x.png.txt", 5);
    assert "x.png.txt"[5..] == ".txt";
    LowerOfLowerCase(".txt");
  }

  /** Leading dots do not start an extension: .png and ..png are rejected ... */
  lemma LeadingDotsRejected()
    ensures !IsImageFile(".png")
    ensures !IsImageFile("..png")
  {
  }

  /** ... while a..png is accepted, and a name without a dot has no extension. */
  lemma InnerDotsAccepted()
    ensures IsImageFile("a..png")
    ensures !IsImageFile("png")
  {
    ClassifyByLastDot("a..png", 2);
    assert "a..png"[2..] == ".png";
    LowerOfLowerCase(".png");
    DotlessUnclassified("png");
  }

  /** Upper-case names are accepted, because the name is lower-cased first ... */
  lemma UpperCaseAccepted()
    ensures IsImageFile("A.PNG")
  {
    ClassifyByLastDot("A.PNG", 1);
    assert "A.PNG"[1..] == ".PNG";
    LowerAt(".PNG");
    assert Lower(".PNG") == ".png";
  }

  /** ... and an upper-case HEIC name goes to the HEIF reader. */
  lemma UpperCaseHeif()
    ensures DecoderFor("IMG.HEIC") == HeifDecoder
  {
    ClassifyByLastDot("IMG.HEIC", 3);
    assert "IMG.HEIC"[3..] == ".HEIC";
    LowerAt(".HEIC");
    assert Lower(".HEIC") == ".heic";
  }
}
