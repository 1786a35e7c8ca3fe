# generate_pdfs: a verified model of the lecture-PDF planner

`scripts/generate_pdfs.py` walks the directories of the working directory. For each one it:

- keeps the entries whose lower-cased extension is one of nine image extensions;
- sorts them by Python string order;
- loads each image (HEIC/HEIF through `pillow_heif`, everything else through `Image.open`);
- drops the files that fail to load and converts `RGBA` and `P` images to `RGB`;
- writes the remaining images as one PDF, `lecture_<folder>.pdf`, inside the folder.

This project models the part of that script that selects and orders the files and plans the PDF. It proves the script's rules about that model.

The model has five modules:

- `Wrappers`: the `Option` type.
- `Paths`: string-level `os.path.splitext`, `os.path.join` of two components, `str.rfind` and `str.lower`, with POSIX semantics.
  - `Join` is posixpath's join: an absolute second part replaces the first; otherwise a separator is inserted unless the first part is empty or already ends in `/`.
  - `SplitExt` takes the suffix from the last dot. That dot must lie in the last path component and must follow some character of that component other than a dot. Otherwise the extension is empty.
  - `SplitExt` is tied to an independent reference definition, `ExtensionAt`, in both directions.
- `Classify`: `IMAGE_EXTENSIONS`, `is_image_file` and the dispatch test of `load_image`.
- `Ordering`:
  - Python's `<` on `str` (code-point lexicographic, a proper prefix first), with its order laws;
  - `Sorted`;
  - a reference insertion sort on sequences;
  - `list.sort()` as an in-place insertion sort on an `array`.

  Any two sorted arrangements of the same multiset are equal (`SortedUnique`). So the in-place sort gives the one result whatever algorithm `list.sort()` uses.
- `Planner`: one iteration of `main`'s loop (`FolderPlan`, with the imperative `PlanFolder` and its loading loop `LoadAll`) and the loop over all entries (`AllPlans`, with the imperative `PlanAll`).
  - The file system is a sequence of `Entry(name, isDir, children)`.
  - The two readers are oracles from a path to `Option<Mode>`. `None` means the read raised.
  - The save is returned as a `SaveCall` value: `SaveSingle(path, image)` or `SaveAll(path, first, append)`.

Three behaviours of the script are worth stating, and the model follows them:

- it lists each lecture folder itself, not a subfolder of it (line 38);
- it sorts case-sensitively by code point, so a name whose first character is an upper-case ASCII letter precedes every name whose first character is a lower-case ASCII letter (line 45, `Ordering.UpperBeforeLower`);
- it names the output `lecture_<folder>.pdf` (line 65).

It does no EXIF handling, no filtering of hidden or reserved folders, and does not check that a child entry is a regular file.

## Model

| member | source | states |
|---|---|---|
| Classify.IsImageFile | scripts/generate_pdfs.py:9-12 | `is_image_file` over the nine extensions of `IMAGE_EXTENSIONS` (the constant `Classify.ImageExtensions`); tied in both directions to the suffix definition `EndsWithOneOf` by `ImageFileByName`, and decided by the suffix from the last dot by `ClassifyByLastDot` |
| Classify.DecoderFor | scripts/generate_pdfs.py:15-16 | the reader `load_image` picks; tied in both directions to ending in .heic or .heif by `HeifByName`, and sends only image files to the HEIF reader by `HeifOnlyForImages` |
| Paths.SplitExt | scripts/generate_pdfs.py:12 | `os.path.splitext`; its parts concatenate to the path by `SplitExtParts`, and its extension is tied in both directions to the reference definition `ExtensionAt` by `ExtensionUnique` |
| Paths.Extension | scripts/generate_pdfs.py:15 | the second component of `os.path.splitext`; characterised by `ExtensionSound`, `ExtensionComplete` and `ExtensionUnique` |
| Paths.Join | scripts/generate_pdfs.py:49 | posixpath `join` of two components; keeps the name's extension by `ExtensionOfJoin` and commutes with lower-casing by `LowerJoin` |
| Paths.Lower | scripts/generate_pdfs.py:12 | ASCII `str.lower`; keeps the length, is idempotent by `LowerIdempotent` and keeps dots and separators in place by `LowerKeepsPunctuation` |
| Ordering.Less | scripts/generate_pdfs.py:45 | Python's `<` on `str`; a strict total order by `LessIrreflexive`, `LessTransitive`, `LessAsymmetric` and `LessTrichotomy` |
| Ordering.Sorted | scripts/generate_pdfs.py:45 | the order `list.sort()` leaves; every element is at most every later one by `SortedPairwise`, and the sorted arrangement of a multiset is unique by `SortedUnique` |
| Planner.LoadImage | scripts/generate_pdfs.py:14-25 | `load_image` with both readers as oracles; the dispatch is stated by `LoadImageDispatch` |
| Planner.ImageCandidates | scripts/generate_pdfs.py:37-40 | the list comprehension over the listing; its counts and membership by `CandidatesExactly` and `CandidateCount`, its order by `CandidatesKeepListingOrder` |
| Planner.SortedCandidates | scripts/generate_pdfs.py:37-45 | the candidates after `images.sort()`; sorted and a permutation of the image files by `SortedCandidatesExactly` |
| Planner.Loaded | scripts/generate_pdfs.py:47-57 | the loading loop's `loaded_images`; never longer than the names, and characterised by `LoadedNames`, `LoadedModes`, `LoadedConcat` and `LoadedAllSucceed` |
| Planner.PdfName | scripts/generate_pdfs.py:65 | the file name `lecture_<folder>.pdf`; used for the save path by `FolderPlanCall`, and never a candidate by `RerunIgnoresGeneratedPdf` |
| Planner.FolderPlan | scripts/generate_pdfs.py:36-73 | one iteration of `main`'s loop for a directory; when it plans a PDF by `FolderPlanned`, which call by `FolderPlanCall` and `FolderPages`, and computed by the imperative `PlanFolder` |
| Planner.EntryPlans | scripts/generate_pdfs.py:31-34 | the plans of one entry; none for a non-directory by `NonDirectoryIgnored` |
| Planner.AllPlans | scripts/generate_pdfs.py:31-34 | the plans of the loop over all entries; at most one per entry, and characterised by `AllPlansConcat`, `AllPlansFromDirectories` and `DirectoriesInAllPlans` |
| Classify.SupportedExtensionsWellFormed | scripts/generate_pdfs.py:9 | each of the nine extensions is a dot followed by neither dots nor separators; the HEIF pair is part of the set, and the empty extension is not |
| Classify.ImageFileByName | scripts/generate_pdfs.py:11-12 | for a slash-free name, is_image_file holds exactly when the lower-cased name ends in one of the nine extensions and the part before it is not dots alone |
| Classify.ExtensionInByName | scripts/generate_pdfs.py:11-12 | for a slash-free name, splitext's extension of the lower-cased name is in a well-formed extension set exactly when that name ends in one of its members after a non-dot character |
| Classify.ImageFileIgnoresCase | scripts/generate_pdfs.py:12 | a name and its lower-cased form are classified alike, both by is_image_file and by the decoder choice |
| Classify.ClassifyByLastDot | scripts/generate_pdfs.py:12 | a name not starting with a dot is classified by the lower-cased suffix from its last dot, for both the image test and the HEIF test |
| Classify.LeadingDotsUnclassified | scripts/generate_pdfs.py:12 | a name whose last dot is preceded only by dots is not an image file and goes to the general decoder |
| Classify.DotlessUnclassified | scripts/generate_pdfs.py:12 | a name without a dot is not an image file and goes to the general decoder |
| Classify.LastDotAccepts | scripts/generate_pdfs.py:12 | x.txt.png is an image file |
| Classify.LastDotRejects | scripts/generate_pdfs.py:12 | x.png.txt is not an image file |
| Classify.LeadingDotsRejected | scripts/generate_pdfs.py:12 | .png and ..png are not image files |
| Classify.InnerDotsAccepted | scripts/generate_pdfs.py:12 | a..png is an image file, png is not |
| Classify.UpperCaseAccepted | scripts/generate_pdfs.py:12 | A.PNG is an image file |
| Classify.UpperCaseHeif | scripts/generate_pdfs.py:15-16 | IMG.HEIC goes to the HEIF reader |
| Classify.HeifByName | scripts/generate_pdfs.py:15-16 | for a slash-free name, the HEIF branch is taken exactly when the lower-cased name ends in .heic or .heif after a non-dot character |
| Classify.HeifOnlyForImages | scripts/generate_pdfs.py:9-16 | every path sent to the HEIF reader is an image file |
| Classify.ClassifyJoinedPath | scripts/generate_pdfs.py:12-16 | for a slash-free name, the joined path and the bare name get the same image test and the same decoder |
| Paths.SplitExtParts | scripts/generate_pdfs.py:12 | splitext's root and extension concatenate to the path, and a non-empty extension is a dot followed by no dot and no separator |
| Paths.ExtensionSound | scripts/generate_pdfs.py:12 | a non-empty extension computed by splitext meets the reference definition of an extension |
| Paths.ExtensionComplete | scripts/generate_pdfs.py:12 | every extension in the sense of the reference definition is the one splitext computes |
| Paths.ExtensionUnique | scripts/generate_pdfs.py:12 | splitext returns e exactly when e is the extension by the reference definition, or e is empty and no extension exists |
| Paths.ExtensionOfJoin | scripts/generate_pdfs.py:49 | joining a folder path and a slash-free name keeps the name's extension |
| Paths.LowerIdempotent | scripts/generate_pdfs.py:12 | lower-casing twice is lower-casing once |
| Paths.LowerJoin | scripts/generate_pdfs.py:15 | lower-casing a joined path is joining the lower-cased parts |
| Paths.LowerKeepsPunctuation | scripts/generate_pdfs.py:12 | lower-casing neither moves, creates nor removes dots and separators |
| Planner.LoadImageDispatch | scripts/generate_pdfs.py:14-25 | load_image on a folder path joined with a slash-free name uses the HEIF reader exactly when the name's lower-cased extension is .heic or .heif, and the general decoder otherwise |
| Planner.Normalise | scripts/generate_pdfs.py:53-54 | the result is never RGBA or P; a mode is kept exactly when it is neither; a changed mode becomes RGB |
| Planner.CandidatesExactly | scripts/generate_pdfs.py:37-40 | each name occurs among the candidates as often as in the listing if it is an image file, and never otherwise; membership is listing membership and is_image_file |
| Planner.CandidateCount | scripts/generate_pdfs.py:37-40 | the count of one name among the candidates, as above |
| Planner.CandidatesKeepListingOrder | scripts/generate_pdfs.py:37-40 | the candidates are a subsequence of the listing |
| Planner.SortedCandidatesExactly | scripts/generate_pdfs.py:37-45 | after sorting, the candidates are in ascending code-point order, are a permutation of the image files of the listing, and keep their number |
| Planner.SortedCandidateMember | scripts/generate_pdfs.py:37-45 | a name is a sorted candidate exactly when it is an image file of the listing |
| Ordering.Sort | scripts/generate_pdfs.py:45 | the reference sort returns a sorted permutation of its input |
| Ordering.SortInPlace | scripts/generate_pdfs.py:45 | the in-place sort leaves the array sorted, a permutation of its old contents, and equal to the reference sort of them |
| Ordering.SortedUnique | scripts/generate_pdfs.py:45 | two sorted sequences with the same multiset of strings are equal |
| Ordering.LessTrichotomy | scripts/generate_pdfs.py:45 | any two strings are equal or ordered one way or the other |
| Ordering.LessTransitive | scripts/generate_pdfs.py:45 | the string order is transitive |
| Ordering.LessAsymmetric | scripts/generate_pdfs.py:45 | of two strings at most one precedes the other |
| Ordering.LessIrreflexive | scripts/generate_pdfs.py:45 | no string precedes itself |
| Ordering.ProperPrefixIsLess | scripts/generate_pdfs.py:45 | a proper prefix precedes the longer string |
| Ordering.UpperBeforeLower | scripts/generate_pdfs.py:45 | a name whose first character is an upper-case ASCII letter precedes every name whose first character is a lower-case ASCII letter |
| Ordering.CaseSensitiveExample | scripts/generate_pdfs.py:45 | IMG_02.JPG precedes img_01.jpg and Zebra.png precedes apple.png |
| Ordering.SortedPairwise | scripts/generate_pdfs.py:45 | in a sorted sequence every element is at most every later one |
| Planner.SubsequenceOfSorted | scripts/generate_pdfs.py:45-57 | a subsequence of a sorted sequence is sorted |
| Planner.LoadAll | scripts/generate_pdfs.py:47-57 | the loading loop returns the pages of the names that load, in order and with normalised modes, as Loaded defines them |
| Planner.LoadedStep | scripts/generate_pdfs.py:48-57 | one more iteration appends the page of that name, or nothing when its load fails |
| Planner.LoadedConcat | scripts/generate_pdfs.py:48-57 | one failure never stops the remaining files: loading a concatenation is loading each part |
| Planner.LoadedNames | scripts/generate_pdfs.py:48-57 | the loaded pages are a subsequence of the names, and a name has a page exactly when its load succeeds |
| Planner.LoadedModes | scripts/generate_pdfs.py:50-55 | every page has the normalised mode its decoder reported |
| Planner.LoadedAllSucceed | scripts/generate_pdfs.py:48-57 | when no load fails, there is one page per name, in order |
| Planner.LoadedNonEmpty | scripts/generate_pdfs.py:47-59 | some page is loaded exactly when some name loads |
| Planner.LoadedDependsOnNamesOnly | scripts/generate_pdfs.py:48-51 | loaders that agree on the names load the same pages |
| Planner.SavePlan | scripts/generate_pdfs.py:69-73 | the save call writes to the given path, its pages are the loaded images exactly, and the single-image call is used exactly when there is one |
| Planner.FolderPlanLoaded | scripts/generate_pdfs.py:42-60 | a PDF is planned exactly when loaded_images is non-empty |
| Planner.SomeCandidateLoads | scripts/generate_pdfs.py:37-51 | some sorted candidate loads exactly when some image file of the listing loads |
| Planner.FolderPlanned | scripts/generate_pdfs.py:37-60 | a PDF is planned for a folder exactly when some image file of its listing loads |
| Planner.FolderPlanCall | scripts/generate_pdfs.py:59-73 | a planned PDF goes to the folder path joined with lecture_<folder>.pdf, its pages are the loaded images of the sorted candidates, and the single-image call is used exactly for one page |
| Planner.CandidatePages | scripts/generate_pdfs.py:37-57 | the pages loaded from the sorted candidates are sorted by name, a subsequence of the candidates, no more than the candidates, from image files that loaded, never RGBA or P; with no failure, one page per candidate |
| Planner.FolderPages | scripts/generate_pdfs.py:37-73 | the pages of a planned PDF have all the properties CandidatePages states |
| Planner.CandidatesDependOnImagesOnly | scripts/generate_pdfs.py:37-45 | listings with the same image files, counted with multiplicity, have the same sorted candidates |
| Planner.FolderPlanDependsOnImagesOnly | scripts/generate_pdfs.py:37-45 | the plan does not depend on listing order or on non-image entries |
| Planner.RerunIgnoresGeneratedPdf | scripts/generate_pdfs.py:37-40 | the generated lecture_<folder>.pdf is no candidate, so a second run over the folder plans the same PDF |
| Planner.CandidatesLoadedAlike | scripts/generate_pdfs.py:47-57 | loaders that agree on the image files of the listing load the same pages |
| Planner.FolderPlanConsultsCandidatesOnly | scripts/generate_pdfs.py:47-51 | the decoders are consulted only on image files of the listing |
| Planner.PlanFolder | scripts/generate_pdfs.py:36-73 | one iteration of the loop for a directory returns exactly the reference plan FolderPlan |
| Planner.AllPlansConcat | scripts/generate_pdfs.py:31-34 | folders are processed independently: the plans of a concatenation of entries are the plans of each part |
| Planner.NonDirectoryIgnored | scripts/generate_pdfs.py:33-34 | removing a non-directory entry changes no plan |
| Planner.AllPlansFromDirectories | scripts/generate_pdfs.py:31-34 | every planned PDF is the plan of some directory entry |
| Planner.DirectoriesInAllPlans | scripts/generate_pdfs.py:31-34 | every directory entry that plans a PDF contributes it |
| Planner.PlanAll | scripts/generate_pdfs.py:31-75 | the loop over all entries returns exactly the reference plans AllPlans |

## Left out

- Real file-system calls: `os.getcwd`, `os.listdir` and `os.path.isdir` (lines 28-33). The working directory is a base path parameter, and each entry's listing and directory flag are given in the `Entry` value. Listing order is an arbitrary input.
- Decoding and encoding: `pillow_heif.read_heif`, `Image.frombytes`, `Image.open`, `convert` and the PDF writer (`save`, `save_all`, `append_images`). Both readers are oracles, and a failing `convert` is folded into the oracle returning `None`. The save is returned as a value.
- `register_heif_opener()` (line 6): one-time library registration with no effect on the kernel.
- The `print` calls and the exception text (lines 57 and 75).
- Exceptions that the script does not catch. An `os.listdir` or save failure aborts the whole run, and the model has no such outcome.
- `str.lower` beyond ASCII. `Paths.LowerChar` maps only `A`-`Z`, so names with non-ASCII capitals are not modelled as Python lower-cases them.
- Dafny's `char` excludes lone surrogates, which Python strings may contain.
- Pixel data, sizes and EXIF rotation, which the script does not inspect.
- The separator is `/` as on POSIX. Windows `ntpath` rules (`\`, drive letters) are not modelled.
- `os.path.join` is modelled for two components, the only form the script uses.
