/**
 * The body of main: for every directory of the working directory, keep the image
 * files of its listing, sort them, load each one (dropping failures), normalise the
 * colour mode, and plan one PDF named lecture_<folder>.pdf from the loaded images.
 */
module Planner {
  import opened Wrappers
  import opened Paths
  import opened Classify
  import opened Ordering

  /** A Pillow image mode such as "RGB", "RGBA", "P", "L" or "CMYK". */
  type Mode = string

  /** One entry of the working directory: its name, whether it is a directory, and its listing. */
  datatype Entry = Entry(name: string, isDir: bool, children: seq<string>)

  /**
   * The two readers behind load_image (pillow_heif.read_heif with Image.frombytes, and
   * Image.open followed by the optional convert), as oracles from a path to the mode of
   * the image read, or None when reading or converting raised an exception.
   */
  datatype Decoders = Decoders(heif: string -> Option<Mode>, general: string -> Option<Mode>)

  /** A loaded image: the file name it was read from and its colour mode. */
  datatype Page = Page(name: string, mode: Mode)

  /** The call that writes the PDF: save(path, "PDF"), or save with save_all and append_images. */
  datatype SaveCall =
    | SaveSingle(path: string, image: Page)
    | SaveAll(path: string, first: Page, append: seq<Page>)
  {
    /** The pages of the written document, in order. */
    function Pages(): seq<Page> {
      match this
      case SaveSingle(_, image) => [image]
      case SaveAll(_, first, append) => [first] + append
    }
  }

  /** load_image(path): the HEIF reader for .heic and .heif, the general decoder otherwise. */
  function LoadImage(path: string, d: Decoders): Option<Mode> {
    if DecoderFor(path) == HeifDecoder then d.heif(path) else d.general(path)
  }

  /** The colour normalisation: RGBA and P become RGB, every other mode is kept. */
  function Normalise(m: Mode): (r: Mode)
    ensures r != "RGBA" && r != "P"
    ensures r == m <==> m != "RGBA" && m != "P"
    ensures r != m ==> r == "RGB"
  {
    if m == "RGBA" || m == "P" then "RGB" else m
  }

  /** [f for f in listing if is_image_file(f)]. */
  function ImageCandidates(listing: seq<string>): seq<string> {
    if listing == [] then []
    else
      var init, last := listing[..|listing| - 1], listing[|listing| - 1];
      ImageCandidates(init) + if IsImageFile(last) then [last] else []
  }

  /** The candidate list is exactly the image files of the listing, each as often as listed. */
  lemma {:induction false} CandidatesExactly(listing: seq<string>)
    ensures forall f :: multiset(ImageCandidates(listing))[f] == if IsImageFile(f) then multiset(listing)[f] else 0
    ensures forall f :: f in ImageCandidates(listing) <==> f in listing && IsImageFile(f)
    decreases |listing|
  {
    if listing != [] {
      var init, last := listing[..|listing| - 1], listing[|listing| - 1];
      assert listing == init + [last];
      CandidatesExactly(init);
    }
  }

  /** The number of times f is a candidate: as often as it is listed if it is an image file, else never. */
  lemma CandidateCount(listing: seq<string>, f: string)
    ensures multiset(ImageCandidates(listing))[f] == if IsImageFile(f) then multiset(listing)[f] else 0
  {
    CandidatesExactly(listing);
  }

  /** The candidate list after images.sort(). */
  function SortedCandidates(listing: seq<string>): seq<string> {
    Sort(ImageCandidates(listing))
  }

  /** After sorting, the candidates are in ascending code-point order and a permutation of the image files of the listing. */
  lemma SortedCandidatesExactly(listing: seq<string>)
    ensures Sorted(SortedCandidates(listing))
    ensures forall f :: multiset(SortedCandidates(listing))[f] == if IsImageFile(f) then multiset(listing)[f] else 0
    ensures forall f :: f in SortedCandidates(listing) <==> f in listing && IsImageFile(f)
    ensures |SortedCandidates(listing)| == |ImageCandidates(listing)|
  {
    CandidatesExactly(listing);
    var c := ImageCandidates(listing);
    assert multiset(SortedCandidates(listing)) == multiset(c);
    assert |multiset(SortedCandidates(listing))| == |multiset(c)|;
    forall f
      ensures f in SortedCandidates(listing) <==> f in c
    {
      assert f in SortedCandidates(listing) <==> f in multiset(SortedCandidates(listing));
      assert f in c <==> f in multiset(c);
    }
  }

  /** A name is a sorted candidate exactly when it is an image file of the listing. */
  lemma SortedCandidateMember(listing: seq<string>, f: string)
    ensures f in SortedCandidates(listing) <==> f in listing && IsImageFile(f)
  {
    SortedCandidatesExactly(listing);
  }

  /** xs can be obtained from ys by deleting elements. */
  predicate IsSubsequence(xs: seq<string>, ys: seq<string>)
    decreases |ys|
  {
    if ys == [] then xs == []
    else
      || (xs != [] && xs[|xs| - 1] == ys[|ys| - 1] && IsSubsequence(xs[..|xs| - 1], ys[..|ys| - 1]))
      || IsSubsequence(xs, ys[..|ys| - 1])
  }

  /** The candidates keep the relative order of the listing. */
  lemma {:induction false} CandidatesKeepListingOrder(listing: seq<string>)
    ensures IsSubsequence(ImageCandidates(listing), listing)
  {
    if listing != [] {
      var init, last := listing[..|listing| - 1], listing[|listing| - 1];
      CandidatesKeepListingOrder(init);
      var r := ImageCandidates(listing);
      if IsImageFile(last) {
        assert r[..|r| - 1] == ImageCandidates(init);
      } else {
        assert r == ImageCandidates(init);
      }
    }
  }

  /** A subsequence has no more elements than the sequence, and each of them occurs there. */
  lemma {:induction false} SubsequenceMembers(xs: seq<string>, ys: seq<string>)
    requires IsSubsequence(xs, ys)
    ensures |xs| <= |ys|
    ensures forall x :: x in xs ==> x in ys
    decreases |ys|
  {
    if ys != [] {
      var ys' := ys[..|ys| - 1];
      if xs != [] && xs[|xs| - 1] == ys[|ys| - 1] && IsSubsequence(xs[..|xs| - 1], ys') {
        SubsequenceMembers(xs[..|xs| - 1], ys');
        assert xs == xs[..|xs| - 1] + [xs[|xs| - 1]];
        assert ys == ys' + [ys[|ys| - 1]];
      } else {
        SubsequenceMembers(xs, ys');
        assert ys == ys' + [ys[|ys| - 1]];
      }
    }
  }

  /** A subsequence of a sorted sequence is sorted. */
  lemma {:induction false} SubsequenceOfSorted(xs: seq<string>, ys: seq<string>)
    requires IsSubsequence(xs, ys)
    requires Sorted(ys)
    ensures Sorted(xs)
    decreases |ys|
  {
    if ys != [] {
      var ys' := ys[..|ys| - 1];
      assert Sorted(ys');
      if xs != [] && xs[|xs| - 1] == ys[|ys| - 1] && IsSubsequence(xs[..|xs| - 1], ys') {
        var xs' := xs[..|xs| - 1];
        SubsequenceOfSorted(xs', ys');
        if |xs| > 1 {
          SubsequenceMembers(xs', ys');
          assert xs'[|xs'| - 1] in ys';
          var k :| 0 <= k < |ys'| && ys'[k] == xs'[|xs'| - 1];
          SortedPairwise(ys, k, |ys| - 1);
        }
      } else {
        SubsequenceOfSorted(xs, ys');
      }
    }
  }

  /** load_image applied to os.path.join(full_path, f): how each file of one folder loads. */
  function FolderLoader(dir: string, d: Decoders): string -> Option<Mode> {
    f => LoadImage(Join(dir, f), d)
  }

  /** The page contributed by one file: one image when loading succeeds, none when it raises. */
  function LoadPage(name: string, load: string -> Option<Mode>): seq<Page> {
    match load(name)
    case Some(mode) => [Page(name, Normalise(mode))]
    case None => []
  }

  /** loaded_images after the loop over names: the pages of the files that loaded, in order. */
  function Loaded(names: seq<string>, load: string -> Option<Mode>): (r: seq<Page>)
    ensures |r| <= |names|
  {
    if names == [] then []
    else Loaded(names[..|names| - 1], load) + LoadPage(names[|names| - 1], load)
  }

  /** The file names of a sequence of pages. */
  function Names(pages: seq<Page>): (r: seq<string>)
    ensures |r| == |pages|
    ensures forall i | 0 <= i < |pages| :: r[i] == pages[i].name
  {
    seq(|pages|, i requires 0 <= i < |pages| => pages[i].name)
  }

  /** The names of concatenated pages are the concatenated names. */
  lemma NamesConcat(a: seq<Page>, b: seq<Page>)
    ensures Names(a + b) == Names(a) + Names(b)
  {
  }

  /** Loading one more name appends that name's page, if any. */
  lemma LoadedStep(names: seq<string>, k: int, load: string -> Option<Mode>)
    requires 0 <= k < |names|
    ensures Loaded(names[..k + 1], load) == Loaded(names[..k], load) + LoadPage(names[k], load)
  {
    assert names[..k + 1][..k] == names[..k];
  }

  /** Some page is loaded exactly when some name loads. */
  lemma LoadedNonEmpty(s: seq<string>, load: string -> Option<Mode>)
    ensures Loaded(s, load) != [] <==> exists f :: f in s && load(f).Some?
  {
  }

  /** One failure never stops the remaining files: loading a concatenation loads each part. */
  lemma {:induction false} LoadedConcat(s: seq<string>, t: seq<string>, load: string -> Option<Mode>)
    ensures Loaded(s + t, load) == Loaded(s, load) + Loaded(t, load)
    decreases |t|
  {
    if t == [] {
      assert s + t == s;
    } else {
      var t' := t[..|t| - 1];
      assert (s + t)[..|s + t| - 1] == s + t';
      LoadedConcat(s, t', load);
    }
  }

  /** The loaded pages keep the order of the names, and are exactly the names whose load succeeded. */
  lemma {:induction false} LoadedNames(s: seq<string>, load: string -> Option<Mode>)
    ensures IsSubsequence(Names(Loaded(s, load)), s)
    ensures forall f :: f in Names(Loaded(s, load)) <==> f in s && load(f).Some?
    decreases |s|
  {
    if s != [] {
      var s', last := s[..|s| - 1], s[|s| - 1];
      assert s == s' + [last];
      LoadedNames(s', load);
      NamesConcat(Loaded(s', load), LoadPage(last, load));
      var n := Names(Loaded(s, load));
      if load(last).Some? {
        assert n[..|n| - 1] == Names(Loaded(s', load));
      } else {
        assert n == Names(Loaded(s', load));
      }
    }
  }

  /** Every loaded page has the normalised mode that its file's decoder reported. */
  lemma {:induction false} LoadedModes(s: seq<string>, load: string -> Option<Mode>)
    ensures forall p | p in Loaded(s, load) :: load(p.name).Some? && p.mode == Normalise(load(p.name).value)
    decreases |s|
  {
    if s != [] {
      LoadedModes(s[..|s| - 1], load);
    }
  }

  /** When no file fails, every name yields a page, in the same order. */
  lemma {:induction false} LoadedAllSucceed(s: seq<string>, load: string -> Option<Mode>)
    requires forall f | f in s :: load(f).Some?
    ensures Names(Loaded(s, load)) == s
    decreases |s|
  {
    if s != [] {
      var s', last := s[..|s| - 1], s[|s| - 1];
      assert last in s;
      assert forall f | f in s' :: f in s;
      LoadedAllSucceed(s', load);
      NamesConcat(Loaded(s', load), LoadPage(last, load));
      assert s == s' + [last];
    }
  }

  /** Pages loaded with loaders that agree on every name are the same. */
  lemma {:induction false} LoadedDependsOnNamesOnly(s: seq<string>, l1: string -> Option<Mode>, l2: string -> Option<Mode>)
    requires forall f | f in s :: l1(f) == l2(f)
    ensures Loaded(s, l1) == Loaded(s, l2)
    decreases |s|
  {
    if s != [] {
      var s' := s[..|s| - 1];
      assert forall f | f in s' :: f in s;
      LoadedDependsOnNamesOnly(s', l1, l2);
    }
  }

  /** The output file name. */
  function PdfName(folder: string): string {
    "lecture_" + folder + ".pdf"
  }

  /** The first/rest split of the save step. */
  function SavePlan(path: string, loaded: seq<Page>): (c: SaveCall)
    requires loaded != []
    ensures c.path == path
    ensures c.Pages() == loaded
    ensures c.SaveSingle? <==> |loaded| == 1
  {
    if |loaded| == 1 then SaveSingle(path, loaded[0]) else SaveAll(path, loaded[0], loaded[1..])
  }

  /** Reference definition of one iteration of main's loop for a directory named folder. */
  function FolderPlan(base: string, folder: string, listing: seq<string>, d: Decoders): Option<SaveCall> {
    var fullPath := Join(base, folder);
    if ImageCandidates(listing) == [] then None
    else
      var loaded := Loaded(SortedCandidates(listing), FolderLoader(fullPath, d));
      if loaded == [] then None
      else Some(SavePlan(Join(fullPath, PdfName(folder)), loaded))
  }

  /** A PDF is planned exactly when some sorted candidate loads. */
  lemma FolderPlanLoaded(base: string, folder: string, listing: seq<string>, d: Decoders)
    ensures FolderPlan(base, folder, listing, d).Some? <==>
      Loaded(SortedCandidates(listing), FolderLoader(Join(base, folder), d)) != []
  {
  }

  /** Some sorted candidate loads exactly when some image file of the listing loads. */
  lemma SomeCandidateLoads(listing: seq<string>, load: string -> Option<Mode>)
    ensures (exists f :: f in SortedCandidates(listing) && load(f).Some?) <==>
      exists f :: f in listing && IsImageFile(f) && load(f).Some?
  {
    if exists f :: f in SortedCandidates(listing) && load(f).Some? {
      var f :| f in SortedCandidates(listing) && load(f).Some?;
      SortedCandidateMember(listing, f);
    }
    if exists f :: f in listing && IsImageFile(f) && load(f).Some? {
      var f :| f in listing && IsImageFile(f) && load(f).Some?;
      SortedCandidateMember(listing, f);
    }
  }

  /** A PDF is planned for a folder exactly when some image file of its listing loads. */
  lemma FolderPlanned(base: string, folder: string, listing: seq<string>, d: Decoders)
    ensures FolderPlan(base, folder, listing, d).Some? <==>
      exists f :: f in listing && IsImageFile(f) && FolderLoader(Join(base, folder), d)(f).Some?
  {
    var load := FolderLoader(Join(base, folder), d);
    FolderPlanLoaded(base, folder, listing, d);
    LoadedNonEmpty(SortedCandidates(listing), load);
    SomeCandidateLoads(listing, load);
  }

  /**
   * A planned PDF is written to lecture_<folder>.pdf inside the folder, its pages are the
   * loaded images of the sorted candidates, and the single-page call is used exactly for one page.
   */
  lemma FolderPlanCall(base: string, folder: string, listing: seq<string>, d: Decoders)
    requires FolderPlan(base, folder, listing, d).Some?
    ensures var dir := Join(base, folder);
      var c := FolderPlan(base, folder, listing, d).value;
      && c.path == Join(dir, "lecture_" + folder + ".pdf")
      && c.Pages() == Loaded(SortedCandidates(listing), FolderLoader(dir, d))
      && (c.SaveSingle? <==> |c.Pages()| == 1)
  {
  }

  /**
   * The pages loaded from the sorted candidates are in ascending code-point order, come from
   * image files of the listing whose load succeeded, number at most the candidates, and carry
   * a mode that is neither RGBA nor P; when no load fails there is one page per candidate.
   */
  lemma CandidatePages(listing: seq<string>, load: string -> Option<Mode>)
    ensures var pages := Loaded(SortedCandidates(listing), load);
      && Sorted(Names(pages))
      && IsSubsequence(Names(pages), SortedCandidates(listing))
      && |pages| <= |ImageCandidates(listing)|
      && (forall f | f in Names(pages) :: f in listing && IsImageFile(f) && load(f).Some?)
      && (forall p | p in pages :: p.mode != "RGBA" && p.mode != "P")
    ensures (forall f | f in listing && IsImageFile(f) :: load(f).Some?) ==>
      Names(Loaded(SortedCandidates(listing), load)) == SortedCandidates(listing)
  {
    var sorted := SortedCandidates(listing);
    SortedCandidatesExactly(listing);
    LoadedNames(sorted, load);
    LoadedModes(sorted, load);
    SubsequenceOfSorted(Names(Loaded(sorted, load)), sorted);
    if forall f | f in listing && IsImageFile(f) :: load(f).Some? {
      LoadedAllSucceed(sorted, load);
    }
  }

  /** The pages of a planned PDF, as CandidatePages describes them for the folder's loader. */
  lemma FolderPages(base: string, folder: string, listing: seq<string>, d: Decoders)
    requires FolderPlan(base, folder, listing, d).Some?
    ensures var load := FolderLoader(Join(base, folder), d);
      var pages := FolderPlan(base, folder, listing, d).value.Pages();
      && Sorted(Names(pages))
      && IsSubsequence(Names(pages), SortedCandidates(listing))
      && |pages| <= |ImageCandidates(listing)|
      && (forall f | f in Names(pages) :: f in listing && IsImageFile(f) && load(f).Some?)
      && (forall p | p in pages :: p.mode != "RGBA" && p.mode != "P")
      && ((forall f | f in listing && IsImageFile(f) :: load(f).Some?) ==> Names(pages) == SortedCandidates(listing))
  {
    FolderPlanCall(base, folder, listing, d);
    CandidatePages(listing, FolderLoader(Join(base, folder), d));
  }

  /** Listings with the same image files, counted with multiplicity, have the same sorted candidates. */
  lemma CandidatesDependOnImagesOnly(l1: seq<string>, l2: seq<string>)
    requires forall f | IsImageFile(f) :: multiset(l1)[f] == multiset(l2)[f]
    ensures SortedCandidates(l1) == SortedCandidates(l2)
    ensures ImageCandidates(l1) == [] <==> ImageCandidates(l2) == []
  {
    var c1, c2 := ImageCandidates(l1), ImageCandidates(l2);
    forall f
      ensures multiset(c1)[f] == multiset(c2)[f]
    {
      CandidateCount(l1, f);
      CandidateCount(l2, f);
    }
    assert multiset(c1) == multiset(c2);
    assert |multiset(c1)| == |c1| && |multiset(c2)| == |c2|;
    SortedUnique(SortedCandidates(l1), SortedCandidates(l2));
  }

  /**
   * The plan depends on the listing only through how often each image name occurs in it:
   * neither the platform's listing order nor any non-image entry changes it.
   */
  lemma FolderPlanDependsOnImagesOnly(base: string, folder: string, l1: seq<string>, l2: seq<string>, d: Decoders)
    requires forall f | IsImageFile(f) :: multiset(l1)[f] == multiset(l2)[f]
    ensures FolderPlan(base, folder, l1, d) == FolderPlan(base, folder, l2, d)
  {
    CandidatesDependOnImagesOnly(l1, l2);
  }

  /** The generated PDF is never a candidate image, so re-running plans the same PDF. */
  lemma RerunIgnoresGeneratedPdf(base: string, folder: string, listing: seq<string>, i: nat, d: Decoders)
    requires i <= |listing|
    ensures var rerun := listing[..i] + [PdfName(folder)] + listing[i..];
      FolderPlan(base, folder, rerun, d) == FolderPlan(base, folder, listing, d)
  {
    var pdf := ".pdf";
    LowerConcat("lecture_" + folder, pdf);
    assert Lower(pdf) == pdf;
    ExtensionOfDottedSuffix(Lower("lecture_" + folder), pdf);
    assert !IsImageFile(PdfName(folder));
    var rerun := listing[..i] + [PdfName(folder)] + listing[i..];
    assert listing == listing[..i] + listing[i..];
    assert multiset(rerun) == multiset(listing) + multiset{PdfName(folder)};
    FolderPlanDependsOnImagesOnly(base, folder, rerun, listing, d);
  }

  /** Loaders that agree on the image files of the listing load the same pages from its sorted candidates. */
  lemma CandidatesLoadedAlike(listing: seq<string>, l1: string -> Option<Mode>, l2: string -> Option<Mode>)
    requires forall f | f in listing && IsImageFile(f) :: l1(f) == l2(f)
    ensures Loaded(SortedCandidates(listing), l1) == Loaded(SortedCandidates(listing), l2)
  {
    SortedCandidatesExactly(listing);
    LoadedDependsOnNamesOnly(SortedCandidates(listing), l1, l2);
  }

  /** Decoders are consulted on the image candidates only: what they would say about other files is irrelevant. */
  lemma FolderPlanConsultsCandidatesOnly(base: string, folder: string, listing: seq<string>, d1: Decoders, d2: Decoders)
    requires forall f | f in listing && IsImageFile(f) ::
      FolderLoader(Join(base, folder), d1)(f) == FolderLoader(Join(base, folder), d2)(f)
    ensures FolderPlan(base, folder, listing, d1) == FolderPlan(base, folder, listing, d2)
  {
    var dir := Join(base, folder);
    CandidatesLoadedAlike(listing, FolderLoader(dir, d1), FolderLoader(dir, d2));
  }

  /** For a slash-free name, load_image takes the HEIF branch exactly when the name's lower-cased extension is .heic or .heif. */
  lemma LoadImageDispatch(dir: string, name: string, d: Decoders)
    requires '/' !in name
    ensures LoadImage(Join(dir, name), d) ==
      if Extension(Lower(name)) in HeifExtensions then d.heif(Join(dir, name)) else d.general(Join(dir, name))
  {
    ClassifyJoinedPath(dir, name);
  }

  /** The loop over the sorted names: load each file, normalise its mode, and skip the ones that fail. */
  method LoadAll(fullPath: string, names: array<string>, d: Decoders) returns (loaded: seq<Page>)
    ensures loaded == Loaded(names[..], FolderLoader(fullPath, d))
  {
    loaded := [];
    var k := 0;
    while k < names.Length
      invariant 0 <= k <= names.Length
      invariant loaded == Loaded(names[..k], FolderLoader(fullPath, d))
    {
      var imgPath := Join(fullPath, names[k]);
      match LoadImage(imgPath, d) {
        case Some(mode) =>
          loaded := loaded + [Page(names[k], Normalise(mode))];
        case None =>
      }
      LoadedStep(names[..], k, FolderLoader(fullPath, d));
      k := k + 1;
    }
    assert names[..k] == names[..];
  }

  /** One iteration of main's loop for one directory. */
  method PlanFolder(base: string, folder: string, listing: seq<string>, d: Decoders) returns (plan: Option<SaveCall>)
    ensures plan == FolderPlan(base, folder, listing, d)
  {
    var fullPath := Join(base, folder);
    var images := ImageCandidates(listing);
    if images == [] {
      return None;
    }
    var sorted := new string[|images|](i requires 0 <= i < |images| => images[i]);
    assert sorted[..] == images;
    SortInPlace(sorted);
    var loaded := LoadAll(fullPath, sorted, d);
    if loaded == [] {
      return None;
    }
    var pdfPath := Join(fullPath, PdfName(folder));
    var first := loaded[0];
    if |loaded| == 1 {
      plan := Some(SaveSingle(pdfPath, first));
    } else {
      plan := Some(SaveAll(pdfPath, first, loaded[1..]));
    }
  }

  /** The save calls contributed by one entry of the working directory. */
  function EntryPlans(base: string, e: Entry, d: Decoders): seq<SaveCall> {
    if !e.isDir then []
    else match FolderPlan(base, e.name, e.children, d)
      case None => []
      case Some(c) => [c]
  }

  /** Reference definition of main: the save calls of all entries, in listing order. */
  function AllPlans(base: string, entries: seq<Entry>, d: Decoders): (r: seq<SaveCall>)
    ensures |r| <= |entries|
  {
    if entries == [] then []
    else AllPlans(base, entries[..|entries| - 1], d) + EntryPlans(base, entries[|entries| - 1], d)
  }

  /** Folders are processed independently: the plans of a concatenation are the plans of its parts. */
  lemma {:induction false} AllPlansConcat(base: string, s: seq<Entry>, t: seq<Entry>, d: Decoders)
    ensures AllPlans(base, s + t, d) == AllPlans(base, s, d) + AllPlans(base, t, d)
    decreases |t|
  {
    if t == [] {
      assert s + t == s;
    } else {
      var t' := t[..|t| - 1];
      assert (s + t)[..|s + t| - 1] == s + t';
      AllPlansConcat(base, s, t', d);
    }
  }

  /** A non-directory entry is never processed: removing it changes no plan. */
  lemma NonDirectoryIgnored(base: string, s: seq<Entry>, e: Entry, t: seq<Entry>, d: Decoders)
    requires !e.isDir
    ensures AllPlans(base, s + [e] + t, d) == AllPlans(base, s + t, d)
  {
    var se := s + [e];
    assert AllPlans(base, se, d) == AllPlans(base, s, d) by {
      assert se[..|s|] == s;
    }
    AllPlansConcat(base, se, t, d);
    AllPlansConcat(base, s, t, d);
  }

  /** Every planned PDF is the plan of a directory entry. */
  lemma {:induction false} AllPlansFromDirectories(base: string, entries: seq<Entry>, d: Decoders)
    ensures forall c | c in AllPlans(base, entries, d) ::
      exists e | e in entries :: e.isDir && FolderPlan(base, e.name, e.children, d) == Some(c)
    decreases |entries|
  {
    if entries != [] {
      var init, last := entries[..|entries| - 1], entries[|entries| - 1];
      assert entries == init + [last];
      AllPlansFromDirectories(base, init, d);
      assert forall e | e in init :: e in entries;
    }
  }

  /** Every directory entry that plans a PDF contributes it. */
  lemma {:induction false} DirectoriesInAllPlans(base: string, entries: seq<Entry>, d: Decoders)
    ensures forall e | e in entries && e.isDir && FolderPlan(base, e.name, e.children, d).Some? ::
      FolderPlan(base, e.name, e.children, d).value in AllPlans(base, entries, d)
    decreases |entries|
  {
    if entries != [] {
      var init, last := entries[..|entries| - 1], entries[|entries| - 1];
      assert entries == init + [last];
      DirectoriesInAllPlans(base, init, d);
      var plans := AllPlans(base, entries, d);
      assert plans == AllPlans(base, init, d) + EntryPlans(base, last, d);
      forall e | e in entries && e.isDir && FolderPlan(base, e.name, e.children, d).Some?
        ensures FolderPlan(base, e.name, e.children, d).value in plans
      {
        if e != last {
          assert e in init;
        }
      }
    }
  }

  /** The loop of main over the working directory's entries, skipping non-directories. */
  method PlanAll(base: string, entries: seq<Entry>, d: Decoders) returns (plans: seq<SaveCall>)
    ensures plans == AllPlans(base, entries, d)
  {
    plans := [];
    for i := 0 to |entries|
      invariant plans == AllPlans(base, entries[..i], d)
    {
      assert entries[..i + 1][..i] == entries[..i];
      var entry := entries[i];
      if !entry.isDir {
        continue;
      }
      var plan := PlanFolder(base, entry.name, entry.children, d);
      if plan.None? {
        continue;
      }
      plans := plans + [plan.value];
    }
    assert entries[..|entries|] == entries;
  }
}
