/** The titlepage classifier and the batch tally of check_titlepage.py's
    `main`: for each archive, locate the package document, pick the first
    readable spine document, decide from its file name or, failing that,
    from its content whether it is a dedicated title/cover page, and count
    the archives classified yes, no or skipped. Four content signals are
    meant; as written only the SVG and cover-mark signals are ever
    computed (`ExtractSignals`), and the four-signal extraction is modelled
    beside it (`ExtractAllSignals`, `IntendedFlagsOf`). */
module Titlepage {
  import opened Seqs
  import opened Strings
  import opened PosixPaths
  import opened Xml
  import opened Package

  const XhtmlNs := "http://www.w3.org/1999/xhtml"
  const SvgNs := "http://www.w3.org/2000/svg"
  /** The `xlink:href` attribute in Clark notation. */
  const XlinkHref := "{http://www.w3.org/1999/xlink}href"
  /** Dublin Core elements, where the package metadata keeps `dc:title`. */
  const DcNs := "http://purl.org/dc/elements/1.1/"

  // ---------------------------------------------------------------- the book title

  predicate IsDcTitle(e: Element)
  {
    Is(e, DcNs, "title")
  }

  /** `root.xpath('.//dc:title/text()')`: the non-empty text nodes held by
      `dc:title` elements strictly below the package root, in document order. */
  function TitleTexts(packageRoot: Element): (r: seq<string>)
    ensures r == HeldTexts(TextNodes(packageRoot.children, None), IsDcTitle)
  {
    ForestTextSelects(packageRoot.children, None, IsDcTitle);
    ForestText(packageRoot.children, false, IsDcTitle)
  }

  /** The book title: the first `dc:title` text node in document order,
      stripped, or "" when there is none. */
  function BookTitle(packageRoot: Element): (t: string)
    ensures t == [] || (!IsSpace(t[0]) && !IsSpace(t[|t| - 1]))
    ensures var nodes := TextNodes(packageRoot.children, None);
            (forall k :: 0 <= k < |nodes| ==> !HeldBy(nodes[k], IsDcTitle)) ==> t == []
    ensures var nodes := TextNodes(packageRoot.children, None);
            forall k :: 0 <= k < |nodes| && HeldBy(nodes[k], IsDcTitle)
                        && (forall j :: 0 <= j < k ==> !HeldBy(nodes[j], IsDcTitle))
                        ==> t == Strip(nodes[k].content)
  {
    var texts := TitleTexts(packageRoot);
    HeldTextsFirst(TextNodes(packageRoot.children, None), IsDcTitle);
    if texts == [] then "" else StripEnds(texts[0]); Strip(texts[0])
  }

  // ---------------------------------------------------------------- the signals

  /** The file-name shortcut, on the lower-cased base name. */
  predicate IsDedicatedName(lowerBasename: string)
  {
    Contains(lowerBasename, "titlepage") || Contains(lowerBasename, "cover")
  }

  /** An `svg` element below the root, looked for in the XHTML namespace
      and, when there is none there, in the SVG namespace. */
  predicate HasSvg(root: Element)
  {
    FindAll(root, XhtmlNs, "svg") != [] || FindAll(root, SvgNs, "svg") != []
  }

  /** The fallback between the two searches amounts to one question: is
      there an `svg` element of either namespace below the root? */
  lemma HasSvgEitherNamespace(root: Element)
    ensures HasSvg(root) <==>
              exists d :: d in Descendants(root) && d.tag == "svg" && (d.ns == XhtmlNs || d.ns == SvgNs)
  {
    var x := FindAll(root, XhtmlNs, "svg");
    var y := FindAll(root, SvgNs, "svg");
    if x != [] {
      assert x[0] in Descendants(root) && Is(x[0], XhtmlNs, "svg");
    } else if y != [] {
      assert y[0] in Descendants(root) && Is(y[0], SvgNs, "svg");
    }
  }

  /** An element whose lower-cased `class` or `id` contains "cover". */
  predicate MarksCover(e: Element)
  {
    Contains(Lower(AttrOr(e, "class", "")), "cover") || Contains(Lower(AttrOr(e, "id", "")), "cover")
  }

  predicate HasCoverMark(root: Element)
  {
    exists d :: d in Descendants(root) && MarksCover(d)
  }

  /** The `svg:image` elements below each of `svgs`, in order. */
  function ImagesBelow(svgs: seq<Element>): seq<Element>
  {
    if svgs == [] then [] else FindAll(svgs[0], SvgNs, "image") + ImagesBelow(svgs[1..])
  }

  /** The SVG images found below XHTML `svg` elements are all among the SVG
      images found below the root: the third search only repeats some of
      the second's. */
  lemma {:induction false} SvgImagesRepeat(root: Element, svgs: seq<Element>)
    requires forall k :: 0 <= k < |svgs| ==> svgs[k] in Descendants(root)
    ensures forall d :: d in ImagesBelow(svgs) ==> d in FindAll(root, SvgNs, "image")
  {
    if svgs != [] {
      SvgImagesRepeat(root, svgs[1..]);
      forall d | d in FindAll(svgs[0], SvgNs, "image")
        ensures d in FindAll(root, SvgNs, "image")
      {
        SubtreesTransitive(root.children, svgs[0], d);
      }
    }
  }

  /** The collected image elements: XHTML `img`, then SVG `image`, then the
      SVG `image`s below XHTML `svg` elements (which repeats some of them). */
  function ImageElements(root: Element): (r: seq<Element>)
    ensures forall d :: d in r ==> d in FindAll(root, XhtmlNs, "img") || d in FindAll(root, SvgNs, "image")
    ensures forall d :: d in FindAll(root, XhtmlNs, "img") ==> d in r
    ensures forall d :: d in FindAll(root, SvgNs, "image") ==> d in r
  {
    SvgImagesRepeat(root, FindAll(root, XhtmlNs, "svg"));
    FindAll(root, XhtmlNs, "img") + FindAll(root, SvgNs, "image") + ImagesBelow(FindAll(root, XhtmlNs, "svg"))
  }

  /** An image's reference: `src` when non-empty, else `xlink:href`; "" for neither. */
  function ImageRef(e: Element): string
  {
    var src := AttrOr(e, "src", "");
    if src != [] then src else AttrOr(e, XlinkHref, "")
  }

  predicate NamesCoverImage(e: Element)
  {
    var ref := ImageRef(e);
    ref != [] && (Contains(Lower(ref), "cover") || Contains(Lower(ref), "title"))
  }

  predicate HasCoverImageName(root: Element)
  {
    exists d :: d in ImageElements(root) && NamesCoverImage(d)
  }

  /** `[t.strip() for t in texts if t.strip()]`. */
  function StrippedTexts(texts: seq<string>): (r: seq<string>)
    ensures forall k :: 0 <= k < |r| ==> r[k] != []
    ensures forall k :: 0 <= k < |r| ==> exists j :: 0 <= j < |texts| && r[k] == Strip(texts[j])
  {
    if texts == [] then []
    else
      var t := Strip(texts[0]);
      var rest := StrippedTexts(texts[1..]);
      assert forall j :: 1 <= j < |texts| ==> texts[1..][j - 1] == texts[j];
      if t != [] then [t] + rest else rest
  }

  /** No text node that is non-empty after stripping is lost. */
  lemma {:induction false} StrippedTextsKeeps(texts: seq<string>, k: nat)
    requires k < |texts| && Strip(texts[k]) != []
    ensures Strip(texts[k]) in StrippedTexts(texts)
  {
    if k > 0 {
      StrippedTextsKeeps(texts[1..], k - 1);
      assert texts[1..][k - 1] == texts[k];
    }
  }

  /** The document's text: the stripped, non-empty text nodes joined by single spaces. */
  function FullText(root: Element): string
  {
    Join(StrippedTexts(IterText(root)), " ")
  }

  /** The title signal: a non-empty title whose lower-cased form occurs in
      the lower-cased full text. */
  predicate ContainsTitle(root: Element, title: string)
  {
    title != [] && Contains(Lower(FullText(root)), Lower(title))
  }

  /** The title signal holds as soon as one text node, stripped, contains the
      title case-insensitively. */
  lemma TitleInOneTextNode(root: Element, title: string, k: nat)
    requires title != [] && k < |IterText(root)|
    requires Contains(Lower(Strip(IterText(root)[k])), Lower(title))
    ensures ContainsTitle(root, title)
  {
    var texts := IterText(root);
    var chunks := StrippedTexts(texts);
    var t := Strip(texts[k]);
    assert t != [];
    StrippedTextsKeeps(texts, k);
    var j :| 0 <= j < |chunks| && chunks[j] == t;
    LowerJoinHasPart(chunks, " ", j, Lower(title));
  }

  /** The five flags `main` computes for one archive. */
  datatype Flags = Flags(dedicated: bool, svg: bool, coverClass: bool, coverImageName: bool, containsTitle: bool)

  /** The flags `main` ends up with for a first document with lower-cased
      base name `lowerBasename` and parsed content `content` (None when it
      cannot be opened or parsed). The file-name shortcut suppresses every
      content signal and an unreadable document leaves them all false. For a
      parsed document only the SVG and cover-mark signals are ever set: the
      text walk at line 120 raises before the title and image-name signals
      are computed (see `ExtractSignals`). */
  function FlagsOf(lowerBasename: string, content: Option<Element>): (f: Flags)
    ensures f.dedicated <==> IsDedicatedName(lowerBasename)
    ensures f.dedicated ==> !f.svg && !f.coverClass
    ensures content.None? ==> !f.svg && !f.coverClass
    ensures !f.coverImageName && !f.containsTitle
    ensures !f.dedicated && content.Some? ==>
              f.svg == HasSvg(content.value) && f.coverClass == HasCoverMark(content.value)
  {
    if IsDedicatedName(lowerBasename) then Flags(true, false, false, false, false)
    else match content
      case None => Flags(false, false, false, false, false)
      case Some(root) => Flags(false, HasSvg(root), HasCoverMark(root), false, false)
  }

  /** The flags as lines 104-134 evidently intend them, with the text walk
      run on the document's root element so that all four content signals
      are computed. */
  function IntendedFlagsOf(lowerBasename: string, content: Option<Element>, title: string): (f: Flags)
    ensures f.dedicated <==> IsDedicatedName(lowerBasename)
    ensures f.dedicated ==> !f.svg && !f.coverClass && !f.coverImageName && !f.containsTitle
    ensures content.None? ==> !f.svg && !f.coverClass && !f.coverImageName && !f.containsTitle
    ensures title == [] ==> !f.containsTitle
    ensures !f.dedicated && content.Some? ==>
              && f.svg == HasSvg(content.value) && f.coverClass == HasCoverMark(content.value)
              && f.coverImageName == HasCoverImageName(content.value)
              && f.containsTitle == ContainsTitle(content.value, title)
  {
    if IsDedicatedName(lowerBasename) then Flags(true, false, false, false, false)
    else match content
      case None => Flags(false, false, false, false, false)
      case Some(root) =>
        Flags(false, HasSvg(root), HasCoverMark(root), HasCoverImageName(root), ContainsTitle(root, title))
  }

  /** The program's flags are the intended ones with the image-name and
      title signals cleared. */
  lemma FlagsAsWritten(lowerBasename: string, content: Option<Element>, title: string)
    ensures FlagsOf(lowerBasename, content)
            == IntendedFlagsOf(lowerBasename, content, title).(coverImageName := false, containsTitle := false)
  {
  }

  /** The class/id loop of `main`: stops at the first element marked "cover". */
  method ScanForCoverMark(els: seq<Element>) returns (found: bool)
    ensures found <==> exists d :: d in els && MarksCover(d)
  {
    found := false;
    var i := 0;
    while i < |els|
      invariant 0 <= i <= |els|
      invariant forall j :: 0 <= j < i ==> !MarksCover(els[j])
    {
      var classAttr := AttrOr(els[i], "class", "");
      var idAttr := AttrOr(els[i], "id", "");
      if Contains(Lower(classAttr), "cover") || Contains(Lower(idAttr), "cover") {
        assert MarksCover(els[i]);
        found := true;
        break;
      }
      i := i + 1;
    }
  }

  /** The image loop of lines 128-134: stops at the first image whose
      reference names a cover or a title. */
  method ScanForCoverImage(imageEls: seq<Element>) returns (found: bool)
    ensures found <==> exists d :: d in imageEls && NamesCoverImage(d)
  {
    found := false;
    var n := 0;
    while n < |imageEls|
      invariant 0 <= n <= |imageEls|
      invariant forall j :: 0 <= j < n ==> !NamesCoverImage(imageEls[j])
    {
      var src := ImageRef(imageEls[n]);
      if src != [] {
        var srcLower := Lower(src);
        if Contains(srcLower, "cover") || Contains(srcLower, "title") {
          assert NamesCoverImage(imageEls[n]);
          found := true;
          break;
        }
      }
      n := n + 1;
    }
  }

  /** The signal extraction of `main` on a parsed first document, as the
      program runs it. Line 120 asks the parsed document for `itertext`;
      lxml's document object (what `etree.parse` returns) has no such
      method, only its root element does. The call raises, the handler at
      lines 135-136 swallows the error, and lines 121-134 never run: only
      the two flags set before it survive, and the other two keep their
      initial false. */
  method ExtractSignals(root: Element) returns (svg: bool, coverClass: bool)
    ensures svg == HasSvg(root)
    ensures coverClass == HasCoverMark(root)
  {
    var svgEls := FindAll(root, XhtmlNs, "svg");
    if svgEls == [] {
      svgEls := FindAll(root, SvgNs, "svg");
    }
    svg := |svgEls| > 0;
    coverClass := ScanForCoverMark(Descendants(root));
  }

  /** The signal extraction lines 104-134 evidently intend, with the text
      walk taken over the root element: all four content signals. */
  method ExtractAllSignals(root: Element, title: string)
    returns (svg: bool, coverClass: bool, coverImageName: bool, containsTitle: bool)
    ensures svg == HasSvg(root)
    ensures coverClass == HasCoverMark(root)
    ensures coverImageName == HasCoverImageName(root)
    ensures containsTitle == ContainsTitle(root, title)
  {
    svg, coverClass := ExtractSignals(root);
    var textNodes := StrippedTexts(IterText(root));
    var fullText := Join(textNodes, " ");
    containsTitle := false;
    if title != [] {
      containsTitle := Contains(Lower(fullText), Lower(title));
    }
    coverImageName := ScanForCoverImage(ImageElements(root));
  }

  // ---------------------------------------------------------------- the verdict

  /** The outcome of the precedence chain, one per report string. */
  datatype Verdict =
    | StandardFilename
    | SvgElement
    | CoverClassOrId
    | CoverImageName
    | BookTitleInText
    | NoClearIndicators

  /** The report line `main` prints for a verdict. */
  function Report(v: Verdict): string
  {
    match v
    case StandardFilename => "yes, standard titlepage/cover filename"
    case SvgElement => "yes, contains SVG element"
    case CoverClassOrId => "yes, has cover class/id attribute"
    case CoverImageName => "yes, image filename contains " + "'cover' or 'title'"
    case BookTitleInText => "yes, contains book title in text"
    case NoClearIndicators => "no clear indicators"
  }

  /** Position in the precedence chain: lower wins. */
  function Rank(v: Verdict): nat
  {
    match v
    case StandardFilename => 0
    case SvgElement => 1
    case CoverClassOrId => 2
    case CoverImageName => 3
    case BookTitleInText => 4
    case NoClearIndicators => 5
  }

  /** The flag behind a positive verdict is set. */
  predicate Raised(f: Flags, v: Verdict)
  {
    match v
    case StandardFilename => f.dedicated
    case SvgElement => f.svg
    case CoverClassOrId => f.coverClass
    case CoverImageName => f.coverImageName
    case BookTitleInText => f.containsTitle
    case NoClearIndicators => false
  }

  predicate AnyRaised(f: Flags)
  {
    f.dedicated || f.svg || f.coverClass || f.coverImageName || f.containsTitle
  }

  /** The priority chain: the verdict of the highest-priority raised flag,
      and "no clear indicators" exactly when no flag is raised. */
  function Classify(f: Flags): (v: Verdict)
    ensures v == NoClearIndicators <==> !AnyRaised(f)
    ensures v != NoClearIndicators ==> Raised(f, v)
    ensures forall w :: Raised(f, w) ==> Rank(v) <= Rank(w)
  {
    if f.dedicated then StandardFilename
    else if f.svg then SvgElement
    else if f.coverClass then CoverClassOrId
    else if f.coverImageName then CoverImageName
    else if f.containsTitle then BookTitleInText
    else NoClearIndicators
  }

  /** Exactly one verdict fits: any verdict that is "no indicators" exactly
      when nothing is raised, is raised otherwise, and outranks every raised
      flag, is the one Classify chooses. */
  lemma ClassifyUnique(f: Flags, v: Verdict)
    requires v == NoClearIndicators <==> !AnyRaised(f)
    requires v != NoClearIndicators ==> Raised(f, v)
    requires forall w :: Raised(f, w) ==> Rank(v) <= Rank(w)
    ensures v == Classify(f)
  {
    var c := Classify(f);
    if v != NoClearIndicators {
      assert Rank(v) <= Rank(c) && Rank(c) <= Rank(v);
    }
  }

  /** A report starts with 'y' exactly for the positive verdicts, which is
      how `main` tells a yes from a no when printing. */
  lemma ReportMarksYes(v: Verdict)
    ensures |Report(v)| > 0
    ensures Report(v)[0] == 'y' <==> v != NoClearIndicators
  {
    match v
    case StandardFilename =>
      assert Report(v)[0] == 'y';
    case SvgElement =>
      assert Report(v)[0] == 'y';
    case CoverClassOrId =>
      assert Report(v)[0] == 'y';
    case CoverImageName =>
      assert Report(v)[0] == 'y';
    case BookTitleInText =>
      assert Report(v)[0] == 'y';
    case NoClearIndicators =>
      assert Report(v)[0] == 'n';
  }

  /** Each verdict has its own report line. */
  lemma ReportsDistinct(v: Verdict, w: Verdict)
    requires Report(v) == Report(w)
    ensures v == w
  {
    ReportMarksYes(v);
    ReportMarksYes(w);
  }

  /** A first document that cannot be opened or parsed is judged by its
      file name alone: a dedicated name, or no clear indicators. */
  lemma UnreadableContentJudgedByName(lowerBasename: string)
    ensures Classify(FlagsOf(lowerBasename, None))
            == (if IsDedicatedName(lowerBasename) then StandardFilename else NoClearIndicators)
  {
  }

  /** A dedicated file name settles the verdict whatever the content and the title. */
  lemma DedicatedNameSettles(lowerBasename: string, c1: Option<Element>, c2: Option<Element>)
    requires IsDedicatedName(lowerBasename)
    ensures Classify(FlagsOf(lowerBasename, c1)) == Classify(FlagsOf(lowerBasename, c2)) == StandardFilename
  {
  }

  /** A first document `<html xmlns="…xhtml"><body><img src="cover.jpg"/></body></html>`. */
  function CoverImagePage(): Element
  {
    var img := Element(XhtmlNs, "img", map["src" := "cover.jpg"], "", [], "");
    var body := Element(XhtmlNs, "body", map[], "", [img], "");
    Element(XhtmlNs, "html", map[], "", [body], "")
  }

  /** The image-name signal is lost as written: a first document named
      `part1.xhtml` whose only image is `cover.jpg` is reported as having no
      clear indicators, where the intended flags give the image-name verdict. */
  lemma ImageNameLostAsWritten()
    ensures Classify(FlagsOf("part1.xhtml", Some(CoverImagePage()))) == NoClearIndicators
    ensures Classify(IntendedFlagsOf("part1.xhtml", Some(CoverImagePage()), "")) == CoverImageName
  {
    NotDedicatedPart1();
    CoverImagePageMarks();
    CoverImagePageImage();
  }

  /** The page has neither an `svg` element nor a cover class or id. */
  lemma CoverImagePageMarks()
    ensures !HasSvg(CoverImagePage()) && !HasCoverMark(CoverImagePage())
  {
    var page := CoverImagePage();
    var body := page.children[0];
    var img := body.children[0];
    assert [img][1..] == [] && [body][1..] == [];
    assert Subtrees([img]) == [img];
    assert Descendants(page) == [body] + Subtrees([img]) == [body, img];
    assert !MarksCover(body) && !MarksCover(img);
  }

  /** The page's image names a cover. */
  lemma CoverImagePageImage()
    ensures HasCoverImageName(CoverImagePage())
  {
    var page := CoverImagePage();
    var body := page.children[0];
    var img := body.children[0];
    assert [img][1..] == [] && [body][1..] == [];
    assert Subtrees([img]) == [img];
    assert Descendants(page) == [body] + Subtrees([img]) == [body, img];
    assert img in FindAll(page, XhtmlNs, "img");
    assert Lower("cover.jpg") == "cover.jpg";
    assert OccursAt(Lower(ImageRef(img)), "cover", 0);
    assert NamesCoverImage(img);
  }

  lemma NotDedicatedPart1()
    ensures !IsDedicatedName("part1.xhtml")
  {
    var s := "part1.xhtml";
    forall i | 0 <= i <= |s| - 5
      ensures !OccursAt(s, "cover", i)
    {
      assert s[i..i + 5][0] == s[i] != 'c';
    }
    forall i | 0 <= i <= |s| - 9
      ensures !OccursAt(s, "titlepage", i)
    {
      assert s[i..i + 9][0] == s[i] != 't';
    }
  }

  // ---------------------------------------------------------------- one archive

  /** One `.epub` file as the model sees it: a zip that cannot be opened, or
      the outcome of reading its container document, its entry names in
      archive order, the package documents that open and parse (by entry
      name), and the content documents that open and parse (by entry name). */
  datatype Epub =
    | BadZip
    | Zip(container: ContainerRead, names: seq<string>,
          packages: map<string, PackageDocument>, contents: map<string, Element>)

  /** What `main` reports for one archive. */
  datatype Outcome =
    | NoOpfFound
    | NoReadableSpineItem
    | FailedToProcess
    | Classified(verdict: Verdict, basename: string)

  function ContentOf(contents: map<string, Element>, path: string): Option<Element>
  {
    if path in contents then Some(contents[path]) else None
  }

  /** The per-archive pipeline: package location, package parsing, first
      content, flags and verdict, with each failure mapped to its skip. */
  function ArchiveOutcome(a: Epub): (o: Outcome)
    ensures o.Classified? ==> a.Zip? && o.verdict != CoverImageName && o.verdict != BookTitleInText
  {
    match a
    case BadZip => FailedToProcess
    case Zip(container, names, packages, contents) =>
      match LocatePackage(container, names)
      case None => NoOpfFound
      case Some(opfPath) =>
        if opfPath !in packages then FailedToProcess
        else
          var doc := packages[opfPath];
          var ns := PackageNamespace(doc.nsmap);
          var manifest := ManifestOf(ManifestElements(doc.root, ns));
          match FirstContent(manifest, OpfDir(opfPath), doc.root, ns)
          case None => NoReadableSpineItem
          case Some(first) =>
            var basename := BaseName(first.href);
            var flags := FlagsOf(Lower(basename), ContentOf(contents, first.zipPath));
            Classified(Classify(flags), basename)
  }

  /** An archive is skipped for want of an OPF exactly when the zip opens
      and no package path is located. */
  lemma NoOpfFoundWhen(a: Epub)
    ensures ArchiveOutcome(a) == NoOpfFound <==> a.Zip? && LocatePackage(a.container, a.names).None?
  {
  }

  /** An archive fails to process exactly when the zip cannot be opened or
      the located package document cannot be read. */
  lemma FailedToProcessWhen(a: Epub)
    ensures ArchiveOutcome(a) == FailedToProcess <==>
              a.BadZip? || (LocatePackage(a.container, a.names).Some?
                            && LocatePackage(a.container, a.names).value !in a.packages)
  {
  }

  /** A classified archive opened, and it has the file-name verdict exactly
      when its lower-cased base name is a dedicated one. */
  lemma ClassifiedByName(a: Epub)
    requires ArchiveOutcome(a).Classified?
    ensures a.Zip?
    ensures ArchiveOutcome(a).verdict == StandardFilename <==> IsDedicatedName(Lower(ArchiveOutcome(a).basename))
  {
  }

  /** The body of `main`'s loop for one archive, up to its report. */
  method ProcessArchive(a: Epub) returns (o: Outcome)
    ensures o == ArchiveOutcome(a)
  {
    if a.BadZip? {
      return FailedToProcess;
    }
    var opfPath := FindOpfPath(a.container, a.names);
    if opfPath.None? {
      return NoOpfFound;
    }
    if opfPath.value !in a.packages {
      return FailedToProcess;
    }
    var doc := a.packages[opfPath.value];
    var manifest, opfDir, ns := ParseOpf(opfPath.value, doc);
    var first := FindFirstContentPath(manifest, opfDir, doc.root, ns);
    if first.None? {
      return NoReadableSpineItem;
    }
    var basename := BaseName(first.value.href);
    var lowerBasename := Lower(basename);
    // The book title of lines 95-96 is read only by the title check, which never runs.
    var dedicated := Contains(lowerBasename, "titlepage") || Contains(lowerBasename, "cover");
    var containsTitle, svg, coverClass, coverImageName := false, false, false, false;
    if !dedicated && first.value.zipPath in a.contents {
      svg, coverClass := ExtractSignals(a.contents[first.value.zipPath]);
    }
    var flags := Flags(dedicated, svg, coverClass, coverImageName, containsTitle);
    assert flags == FlagsOf(lowerBasename, ContentOf(a.contents, first.value.zipPath));
    return Classified(Classify(flags), basename);
  }

  // ---------------------------------------------------------------- the tally

  /** An outcome `main` counts as yes. */
  predicate IsYes(o: Outcome)
  {
    o.Classified? && o.verdict != NoClearIndicators
  }

  /** An outcome `main` counts as no. */
  predicate IsNo(o: Outcome)
  {
    o.Classified? && o.verdict == NoClearIndicators
  }

  /** An outcome `main` counts as skipped. */
  predicate IsSkip(o: Outcome)
  {
    !o.Classified?
  }

  /** The three counters count the yes, no and skipped outcomes of `seen`. */
  predicate Counted(seen: seq<Outcome>, yes: nat, no: nat, skip: nat)
  {
    && yes == CountWhere(seen, IsYes)
    && no == CountWhere(seen, IsNo)
    && skip == CountWhere(seen, IsSkip)
  }

  /** One more outcome raises each count by whether it is of that kind. */
  lemma CountedSnoc(seen: seq<Outcome>, o: Outcome, yes: nat, no: nat, skip: nat)
    requires Counted(seen, yes, no, skip)
    ensures Counted(seen + [o], yes + (if IsYes(o) then 1 else 0), no + (if IsNo(o) then 1 else 0),
                    skip + (if IsSkip(o) then 1 else 0))
  {
    CountWhereSnoc(seen, o, IsYes);
    CountWhereSnoc(seen, o, IsNo);
    CountWhereSnoc(seen, o, IsSkip);
  }

  /** The counter update of `main` for one outcome: exactly one of the
      three counters goes up. */
  method Tally(o: Outcome, yes: nat, no: nat, skip: nat) returns (yes': nat, no': nat, skip': nat)
    ensures yes' == yes + (if IsYes(o) then 1 else 0)
    ensures no' == no + (if IsNo(o) then 1 else 0)
    ensures skip' == skip + (if IsSkip(o) then 1 else 0)
    ensures yes' + no' + skip' == yes + no + skip + 1
  {
    yes', no', skip' := yes, no, skip;
    match o {
      case Classified(verdict, _) =>
        if verdict != NoClearIndicators {
          yes' := yes + 1;
        } else {
          no' := no + 1;
        }
      case _ =>
        skip' := skip + 1;
    }
  }

  /** The outcomes of the archives, in order. */
  function Outcomes(archives: seq<Epub>): (r: seq<Outcome>)
    ensures |r| == |archives|
  {
    if archives == [] then [] else Outcomes(archives[..|archives| - 1]) + [ArchiveOutcome(archives[|archives| - 1])]
  }

  /** The k-th outcome is that of the k-th archive. */
  lemma {:induction false} OutcomesAt(archives: seq<Epub>, k: nat)
    requires k < |archives|
    ensures Outcomes(archives)[k] == ArchiveOutcome(archives[k])
  {
    hide ArchiveOutcome;
    var n := |archives| - 1;
    if k < n {
      OutcomesAt(archives[..n], k);
    }
  }

  /** `main`'s loop over the archives (in the order given): one outcome per
      archive, and the yes, no and skip counters, which together count every
      archive exactly once. */
  method Survey(archives: seq<Epub>) returns (outcomes: seq<Outcome>, yes: nat, no: nat, skip: nat)
    ensures outcomes == Outcomes(archives)
    ensures yes == CountWhere(outcomes, IsYes)
    ensures no == CountWhere(outcomes, IsNo)
    ensures skip == CountWhere(outcomes, IsSkip)
    ensures yes + no + skip == |archives|
  {
    // The loop needs only that each outcome is ArchiveOutcome's, not how it is computed.
    hide ArchiveOutcome;
    outcomes, yes, no, skip := [], 0, 0, 0;
    var i := 0;
    while i < |archives|
      invariant 0 <= i <= |archives|
      invariant outcomes == Outcomes(archives[..i])
      invariant Counted(outcomes, yes, no, skip)
    {
      var o := ProcessArchive(archives[i]);
      CountedSnoc(outcomes, o, yes, no, skip);
      yes, no, skip := Tally(o, yes, no, skip);
      assert archives[..i + 1][..i] == archives[..i];
      outcomes := outcomes + [o];
      i := i + 1;
    }
    assert archives[..i] == archives;
    CountPartition(outcomes, IsYes, IsNo, IsSkip);
  }
}
