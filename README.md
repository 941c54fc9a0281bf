# check_titlepage — a Dafny model

`check_titlepage.py` walks a folder of EPUB books. For each book it asks
whether the first readable document of the reading order (the *spine*) is a
dedicated title page or cover. It:

- finds the package document (`.opf`). When `META-INF/container.xml` opens,
  parses and has a `rootfile` element (section 3.5.2 of the EPUB 3 Open
  Container Format), that element's `full-path` attribute is the answer, even
  when it is missing. Only without such an element is the first entry whose
  name ends in `.opf` taken;
- reads the package namespace, the manifest and the package directory;
- picks the first spine `itemref` that is linear, refers to a manifest entry
  and has a markup media type, as described in section 5.7 of EPUB Packages
  3.x;
- classifies that document. A file name containing `titlepage` or `cover`
  settles it. Otherwise the code sets out to try four content signals in a
  fixed order: an SVG element, a `cover` class or id, an image whose
  reference names a cover or a title, and the book title appearing in the
  text. As written, only the first two are ever computed (see Findings below);
- counts every book as yes, no or skipped.

The model has six modules.

| module | file | what it holds |
|---|---|---|
| `Seqs` | `seqs.dfy` | `Option`, "first index satisfying a test", filtering and counting |
| `Strings` | `strings.dfy` | ASCII lower-casing, Python's `strip`, substring search, `join` and `split` |
| `PosixPaths` | `posix_paths.dfy` | `PurePosixPath`: parsing, printing, joining, `parent` and `name` |
| `Xml` | `xml.dfy` | element trees as lxml presents them: `find`, `findall('.//…')`, `itertext`, and text nodes for `…/text()` |
| `Package` | `package.dfy` | `find_opf_path`, `parse_opf`, `find_first_content_path` |
| `Titlepage` | `titlepage.dfy` | the signals, the verdict chain, one archive, and the tally of `main` |

The zip archive and the XML parser are inputs:

- an archive is its container-document outcome, its entry-name list, and the
  package and content documents that open and parse, keyed by entry name;
- a document that cannot be opened or parsed is simply absent from that map.

Each loop of the source is a method proved equal to a specification
function. The properties the program relies on are proved about those
functions.

The code is narrower than a title-page checker might be expected to be, and
the model follows the code:

- the file-name shortcut knows only `titlepage` and `cover`;
- exactly one reason is reported, never a `+`-joined list;
- the title signal needs only a non-empty title, with no minimum length;
- `..` segments in hrefs are kept, not collapsed;
- a dedicated file name skips content analysis altogether.

## Model

| member | source | states |
|---|---|---|
| `Package.LocatePackage` | check_titlepage.py:8-20 | a container `rootfile` decides alone, giving its `full-path` or None with no fallback scan; otherwise the result is None exactly when no entry's lower-cased name ends in `.opf`, and else it is the first such entry in archive order |
| `Package.FindOpfPath` | check_titlepage.py:8-20 | the early-return scan over the entry names returns exactly `LocatePackage` |
| `PosixPaths.ResolveAtTopLevel` | check_titlepage.py:22-23 | resolving a normalised relative href against the top-level directory "." gives the href unchanged |
| `PosixPaths.ResolveNested` | check_titlepage.py:22-23 | resolving a normalised relative href against a normalised directory gives `dir + "/" + href` |
| `PosixPaths.ResolveKeepsParentSegments` | check_titlepage.py:22-23 | a leading `..` is kept verbatim: `dir/../href`, not collapsed |
| `PosixPaths.ResolveDropsCurrentSegments` | check_titlepage.py:22-23 | a leading `./` is dropped from a relative href |
| `PosixPaths.ParseDropsInnerEmpty` | check_titlepage.py:22-23 | a doubled slash after a segment parses as a single slash: the empty segment is dropped |
| `PosixPaths.ParseDropsInnerCurrent` | check_titlepage.py:22-23 | a `/./` after a segment parses as a single slash: the `.` segment is dropped |
| `PosixPaths.ResolveAbsolute` | check_titlepage.py:22-23 | an absolute href replaces the package directory |
| `PosixPaths.ResolveIsNormalised` | check_titlepage.py:22-23 | the resolved string is the printed form of the two parsed paths joined, and printing it after parsing gives it back |
| `PosixPaths.ResolveHref` | check_titlepage.py:22-23 | the resolved path is never empty (an empty join prints as ".") |
| `PosixPaths.ParseFormat` | check_titlepage.py:22-23 | printing a well-formed path and parsing it back gives the same path |
| `PosixPaths.FormatParseNormalRelative` | check_titlepage.py:22-23 | a normalised relative path string survives a parse followed by printing |
| `Strings.SplitAppend` | check_titlepage.py:22-23 | splitting at one separator splits the two sides independently |
| `Strings.JoinSplit` | check_titlepage.py:22-23 | splitting on a separator and joining back gives the original string |
| `Strings.SplitJoin` | check_titlepage.py:22-23 | joining separator-free parts and splitting gives the parts back |
| `PosixPaths.OpfDir` | check_titlepage.py:48 | the package directory string is never empty: a path without a parent directory gives "." |
| `PosixPaths.OpfDirIsParent` | check_titlepage.py:48 | the package directory string parses back to the POSIX parent of the package path |
| `PosixPaths.OpfDirTopLevel` | check_titlepage.py:48 | a package document at the top of the archive has directory "." |
| `PosixPaths.OpfDirNested` | check_titlepage.py:48 | a package document at `dir/name` has directory `dir` |
| `PosixPaths.ResolveFromPackageDocument` | check_titlepage.py:22-23 | hrefs of a package document at `dir/name` resolve to `dir/href`, and those of a top-level one to `href` |
| `PosixPaths.BaseName` | check_titlepage.py:93 | the base name is one segment: it holds no `/`, is never `.`, and is empty only for a path with no segments |
| `PosixPaths.BaseNameNested` | check_titlepage.py:93 | the base name of `dir/name`, and of `name`, is `name` |
| `Package.PackageNamespace` | check_titlepage.py:30-36 | the first declared URI that is non-empty and contains "opf", or `http://www.idpf.org/2007/opf` when none does |
| `Package.ChooseNamespace` | check_titlepage.py:30-36 | the namespace loop with `break` returns exactly `PackageNamespace` |
| `Package.ManifestKeys` | check_titlepage.py:38-47 | an id is a manifest key exactly when some manifest item has that id and a non-empty href |
| `Package.ManifestLastWins` | check_titlepage.py:41-47 | for a repeated id the entry of the last kept item with that id is the one stored |
| `Package.ManifestEntriesFromItems` | check_titlepage.py:41-47 | every stored entry is the href, media type (possibly missing) and properties (default "") of a kept item with that id |
| `Package.BuildManifest` | check_titlepage.py:38-47 | the loop filling the manifest map yields exactly the fold described by the three lemmas above |
| `Package.ParseOpf` | check_titlepage.py:25-49 | parse_opf returns the chosen namespace, the manifest of the root's `manifest` child and the POSIX parent of the package path |
| `Package.FirstReadable` | check_titlepage.py:55-65 | None exactly when no itemref is linear (`linear` not exactly "no", default "yes"), names a manifest entry by a non-empty idref and is markup; otherwise the first such itemref's resolved path and href |
| `Package.ChosenItemIsReadable` | check_titlepage.py:56-64 | a chosen document is never non-linear, dangling or non-markup, its href is that manifest entry's href and its path is that href resolved against the package directory |
| `Package.ScanSpine` | check_titlepage.py:55-65 | the early-return loop over the itemrefs returns exactly `FirstReadable` |
| `Package.FindFirstContentPath` | check_titlepage.py:51-65 | None without a spine, otherwise the spine's first readable itemref |
| `Xml.ForestTextSelects` | check_titlepage.py:95 | the recursive text walk used for `…/text()` and `itertext` lists exactly the non-empty text nodes, in document order, whose holding element passes the test |
| `Xml.TextNodesHeldWithin` | check_titlepage.py:95 | every text node listed for a forest is held by an element of that forest or by the element it hangs from, so `.//` from the root reaches no text outside it |
| `Xml.HeldTextsFirst` | check_titlepage.py:95-96 | a `…/text()` result is empty exactly when no node qualifies, and otherwise starts with the first qualifying node in document order |
| `Titlepage.TitleTexts` | check_titlepage.py:95 | `.//dc:title/text()` gives the non-empty text nodes held by `dc:title` elements below the package root, in document order |
| `Titlepage.BookTitle` | check_titlepage.py:95-96 | the book title is the first `dc:title` text node in document order, stripped, or "" when there is none; it is empty or starts and ends with a non-space character |
| `Strings.StripEnds` | check_titlepage.py:96 | a stripped string is empty or neither starts nor ends with white space |
| `Strings.StripRemovesOnlySpace` | check_titlepage.py:96 | the stripped string occurs in the original with only white space before and after it |
| `Titlepage.HasSvgEitherNamespace` | check_titlepage.py:109-112 | the XHTML search with its SVG-namespace fallback finds something exactly when an `svg` element of either namespace lies below the root |
| `Titlepage.ScanForCoverMark` | check_titlepage.py:113-119 | the loop with `break` finds a mark exactly when some element's lower-cased `class` or `id` contains "cover" |
| `Xml.DescendantsOfChild` | check_titlepage.py:113 | `.//` reaches every depth: a child and everything below it are descendants |
| `Xml.FindAll` | check_titlepage.py:109-126 | `findall('.//{ns}tag')` lists exactly the descendants with that qualified name |
| `Titlepage.ExtractSignals` | check_titlepage.py:104-136 | as the program runs: the SVG and cover-mark flags equal their predicates, and nothing after line 120 is computed |
| `Titlepage.FlagsOf` | check_titlepage.py:97-136 | as the program runs: the shortcut holds exactly when the lower-cased base name contains `titlepage` or `cover`, and then every content flag is false; an unreadable document leaves them false; a parsed one gets the SVG and cover-mark flags, and the image-name and title flags are always false |
| `Titlepage.ArchiveOutcome` | check_titlepage.py:80-159 | as the program runs, a classified archive opened, and its verdict is never the image-name or the book-title one |
| `Titlepage.ImageNameLostAsWritten` | check_titlepage.py:120-136 | a first document `part1.xhtml` holding only `<img src="cover.jpg">` is judged "no clear indicators" as written, and gets the image-name verdict under the intended flags |
| `Xml.IterText` | check_titlepage.py:120 | `itertext` (on the root element, as evidently intended) gives every non-empty text node of the tree in document order, the root's own tail excluded |
| `Titlepage.StrippedTexts` | check_titlepage.py:120 | every kept string is non-empty and is the stripped form of one of the input text nodes |
| `Titlepage.StrippedTextsKeeps` | check_titlepage.py:120 | every text node that is non-empty after stripping is kept, stripped |
| `Titlepage.TitleInOneTextNode` | check_titlepage.py:120-123 | a non-empty title found case-insensitively in one stripped text node is found in the joined text |
| `Strings.LowerJoinHasPart` | check_titlepage.py:121-123 | a pattern found in the lower-cased form of one part is found in the lower-cased join |
| `Xml.SubtreesTransitive` | check_titlepage.py:126 | an element below a descendant of the root is itself below the root |
| `Titlepage.SvgImagesRepeat` | check_titlepage.py:124-126 | the SVG images collected below XHTML `svg` elements are all among those already collected below the root |
| `Titlepage.ImageElements` | check_titlepage.py:124-127 | the collected images are exactly the XHTML `img` and SVG `image` elements below the root, the third search adding only repeats |
| `Titlepage.ScanForCoverImage` | check_titlepage.py:128-134 | the loop with `break` finds one exactly when some collected image's `src`, or failing that its `xlink:href`, lower-cased, contains "cover" or "title" |
| `Titlepage.ExtractAllSignals` | check_titlepage.py:104-134 | as evidently intended: the four content flags equal the SVG, cover-mark, cover-image and title predicates of the document |
| `Titlepage.IntendedFlagsOf` | check_titlepage.py:97-134 | as evidently intended: the shortcut and the unreadable case as in `FlagsOf`, an empty title never matches, and a parsed document gets all four content predicates |
| `Titlepage.FlagsAsWritten` | check_titlepage.py:104-136 | the program's flags are the intended ones with the image-name and title flags cleared |
| `Titlepage.Classify` | check_titlepage.py:137-154 | "no clear indicators" exactly when all five flags are false; otherwise the verdict's flag is raised and no raised flag has higher priority |
| `Titlepage.ClassifyUnique` | check_titlepage.py:137-154 | any verdict meeting that description is the one chosen, so exactly one branch fires |
| `Titlepage.ReportMarksYes` | check_titlepage.py:137-155 | a report starts with 'y' exactly for the positive verdicts |
| `Titlepage.ReportsDistinct` | check_titlepage.py:138-153 | each verdict has its own report line |
| `Titlepage.UnreadableContentJudgedByName` | check_titlepage.py:102-136 | a first document that cannot be read gets the file-name verdict or "no clear indicators" |
| `Titlepage.DedicatedNameSettles` | check_titlepage.py:97-102 | with a dedicated file name the verdict is the file-name one, whatever the content |
| `Titlepage.NoOpfFoundWhen` | check_titlepage.py:81-86 | an archive is skipped for want of an OPF exactly when the zip opens and no package path is located |
| `Titlepage.FailedToProcessWhen` | check_titlepage.py:80-87 | an archive fails to process exactly when the zip cannot be opened or the located package document cannot be read |
| `Titlepage.ClassifiedByName` | check_titlepage.py:93-138 | a classified archive opened, and it has the file-name verdict exactly when its lower-cased base name contains `titlepage` or `cover` |
| `Titlepage.ProcessArchive` | check_titlepage.py:80-159 | one iteration of `main`'s loop yields exactly `ArchiveOutcome` |
| `Titlepage.Tally` | check_titlepage.py:137-159 | exactly one of the three counters goes up: yes for a positive verdict, no for "no clear indicators", skip for a skipped archive |
| `Titlepage.CountedSnoc` | check_titlepage.py:137-159 | one more outcome raises each count by whether it is of that kind |
| `Titlepage.OutcomesAt` | check_titlepage.py:79-159 | the k-th outcome of the survey is that of the k-th archive |
| `Titlepage.Survey` | check_titlepage.py:76-160 | the outcomes are those of the archives in order; the yes, no and skip counters count the positive verdicts, "no clear indicators" and the skips, and add up to the number of archives |
| `Seqs.CountPartition` | check_titlepage.py:160 | three tests splitting every item into exactly one class split a count into parts adding up to the length |

## Findings

| source | as written | input that shows it | evidently intended | confidence | as-written member | corrected member |
|---|---|---|---|---|---|---|
| check_titlepage.py:120 | `content_tree.itertext()` is called on the document object `etree.parse` returns, which lxml gives no `itertext`; the `AttributeError` is swallowed by lines 135-136, so the title check (121-123) and the image-name check (124-134) never run and their verdicts are never reported | first document `part1.xhtml` = `<html xmlns="http://www.w3.org/1999/xhtml"><body><img src="cover.jpg"/></body></html>`: "no clear indicators" and a no | walk the root element's text (`content_tree.getroot().itertext()`), so that all four content signals are computed | high, not executed | `Titlepage.ImageNameLostAsWritten` | `Titlepage.IntendedFlagsOf` |

The batch results (`Titlepage.ArchiveOutcome`, `Titlepage.Survey`) follow
the program as written. The intended signal extraction is modelled beside
it (`Titlepage.ExtractAllSignals`, `Titlepage.IntendedFlagsOf`) with the
title and image properties proved about it.

## Left out

- Zip and XML input/output: opening the archive, reading entries and parsing
  with lxml's recovering parser. Their results are inputs. `ContainerRead`
  gives what the container document yielded, and the `packages` and
  `contents` maps hold the documents that opened and parsed.
- Exceptions as control flow:
  - an unreadable container document is an input case;
  - an unopenable or unparsable package document is a key missing from
    `packages`, giving "failed to process";
  - an unopenable or unparsable content document is a key missing from
    `contents`, leaving every content flag false;
  - the `AttributeError` of line 120 is modelled (see Findings below); any
    other exception during the analysis of a parsed document is not.
- Titlepage.Survey: the counts add up to the number of archives only while
  every report line can be written. The print at line 156 is inside the
  `try`, after the yes or no increment; if it raises (an output encoding
  that cannot encode the base name), lines 157-159 add a skip as well and
  that archive is counted twice. A failing skip message at line 84 or 90
  leads to a second print at line 158, and if that one fails too the run
  stops.
- Comments and processing instructions are not part of the model's trees.
  `.//*` matches elements only, so the class/id search never meets them.
  What is lost is that a comment splits a text run: `foo<!--c-->bar` is two
  text nodes for `itertext` and for `dc:title/text()` (the title would be
  `foo`), while the model has one run per position.
- Full Unicode case mapping: `Strings.Lower` maps ASCII letters only.
  `Strings.IsSpace` uses the code points of Python's `str.isspace`.
- Directory discovery and sorting of the `.epub` paths, the existence
  check on the folder and the "no EPUB files" early return. `Titlepage.Survey`
  takes the archives in the order given.
- The interactive folder prompt and the `last_folder_helper` persistence.
- Printing: the per-book line with its `[:30]` and `[:40]` truncations,
  suffix removal, the `print_yes` switch, and the final summary line. The
  report strings themselves are modelled (`Titlepage.Report`).
- Signals a title-page checker might use but the code does not compute:
  ebookmaker classes, body structure, single-image and minimal-text checks,
  centred alignment, the `titl` and `wrap` file-name keywords, the
  title-length rule and multi-reason reports.
