/** Locating and reading the EPUB package document (the `.opf` file), and
    choosing the first readable document of its spine: find_opf_path,
    parse_opf and find_first_content_path in check_titlepage.py. The zip
    archive and the XML parser are abstracted: the archive is its entry-name
    list, and documents arrive already parsed. */
module Package {
  import opened Seqs
  import opened Strings
  import opened PosixPaths
  import opened Xml

  /** Namespace assumed for the package document when its root declares none containing "opf". */
  const DefaultOpfNs := "http://www.idpf.org/2007/opf"

  /** What reading `META-INF/container.xml` produced: the entry was missing
      or not well-formed XML; it parsed but has no `rootfile` element in the
      OCF container namespace; or the first such element, with its
      `full-path` attribute if it has one. */
  datatype ContainerRead =
    | ContainerUnreadable
    | NoRootfile
    | Rootfile(fullPath: Option<string>)

  /** A parsed package document: the namespace URIs its root element
      declares (in `nsmap` order) and the root element. */
  datatype PackageDocument = PackageDocument(nsmap: seq<string>, root: Element)

  /** One manifest entry, keyed by its id in the manifest map. A missing
      `media-type` stays missing; missing `properties` become "". */
  datatype ManifestItem = ManifestItem(href: string, mediaType: Option<string>, properties: string)

  /** The document chosen as first content: its path inside the archive and
      its href as written in the manifest. */
  datatype ContentRef = ContentRef(zipPath: string, href: string)

  // ---------------------------------------------------------------- find_opf_path

  /** An archive entry the fallback scan accepts as the package document. */
  predicate IsPackageName(name: string)
  {
    EndsWith(Lower(name), ".opf")
  }

  /** `k` is the first entry of `names` the fallback scan accepts. */
  predicate IsFirstPackageName(names: seq<string>, k: int)
  {
    0 <= k < |names| && IsPackageName(names[k])
    && forall j :: 0 <= j < k ==> !IsPackageName(names[j])
  }

  /** The package document's path: the container's `rootfile` decides alone
      when there is one (even without `full-path`); otherwise the first
      `.opf` entry in archive order, if any. */
  function LocatePackage(container: ContainerRead, names: seq<string>): (r: Option<string>)
    ensures container.Rootfile? ==> r == container.fullPath
    ensures !container.Rootfile? ==>
              (r.None? <==> forall k :: 0 <= k < |names| ==> !IsPackageName(names[k]))
    ensures !container.Rootfile? ==>
              forall k :: IsFirstPackageName(names, k) ==> r == Some(names[k])
  {
    if container.Rootfile? then container.fullPath
    else match FirstIndex(names, IsPackageName)
      case None => None
      case Some(k) => Some(names[k])
  }

  /** find_opf_path. */
  method FindOpfPath(container: ContainerRead, names: seq<string>) returns (r: Option<string>)
    ensures r == LocatePackage(container, names)
  {
    if container.Rootfile? {
      return container.fullPath;
    }
    var i := 0;
    while i < |names|
      invariant 0 <= i <= |names|
      invariant forall j :: 0 <= j < i ==> !IsPackageName(names[j])
    {
      if EndsWith(Lower(names[i]), ".opf") {
        assert IsFirstPackageName(names, i);
        return Some(names[i]);
      }
      i := i + 1;
    }
    return None;
  }

  // ---------------------------------------------------------------- parse_opf

  /** A declared namespace URI taken as the package namespace. */
  predicate IsOpfUri(uri: string)
  {
    uri != [] && Contains(uri, "opf")
  }

  /** The package namespace: the first declared URI containing "opf", or the
      standard one when none does. */
  function PackageNamespace(nsmap: seq<string>): (r: string)
    ensures (forall k :: 0 <= k < |nsmap| ==> !IsOpfUri(nsmap[k])) ==> r == DefaultOpfNs
    ensures forall k :: (0 <= k < |nsmap| && IsOpfUri(nsmap[k])
                         && forall j :: 0 <= j < k ==> !IsOpfUri(nsmap[j])) ==> r == nsmap[k]
  {
    match FirstIndex(nsmap, IsOpfUri)
    case None => DefaultOpfNs
    case Some(k) => nsmap[k]
  }

  /** The `item` children of the root's first `manifest` child, in order. */
  function ManifestElements(root: Element, ns: string): seq<Element>
  {
    match FindChild(root, ns, "manifest")
    case None => []
    case Some(m) => FindChildren(m, ns, "item")
  }

  function IdOf(item: Element): string
  {
    AttrOr(item, "id", "")
  }

  /** A manifest item that is kept: it has a non-empty id and a non-empty href. */
  predicate Listed(item: Element)
  {
    IdOf(item) != [] && AttrOr(item, "href", "") != []
  }

  function EntryOf(item: Element): ManifestItem
  {
    ManifestItem(AttrOr(item, "href", ""), Attr(item, "media-type"), AttrOr(item, "properties", ""))
  }

  /** No kept item after position `k` has the same id as the one at `k`. */
  predicate LastWithId(items: seq<Element>, k: int)
    requires 0 <= k < |items|
  {
    forall j :: k < j < |items| ==> !(Listed(items[j]) && IdOf(items[j]) == IdOf(items[k]))
  }

  /** The manifest map built from `items` in order, as the loop of parse_opf
      fills it: each kept item sets its id's entry, overwriting any earlier one. */
  function ManifestOf(items: seq<Element>): map<string, ManifestItem>
    decreases |items|
  {
    if items == [] then map[]
    else
      var n := |items| - 1;
      var m := ManifestOf(items[..n]);
      if Listed(items[n]) then m[IdOf(items[n]) := EntryOf(items[n])] else m
  }

  /** Exactly the ids of kept items are keys of the manifest. */
  lemma {:induction false} ManifestKeys(items: seq<Element>, id: string)
    ensures id in ManifestOf(items) <==>
              exists k :: 0 <= k < |items| && Listed(items[k]) && IdOf(items[k]) == id
    decreases |items|
  {
    if items != [] {
      var n := |items| - 1;
      var prefix := items[..n];
      ManifestKeys(prefix, id);
      if id in ManifestOf(prefix) {
        var k :| 0 <= k < n && Listed(prefix[k]) && IdOf(prefix[k]) == id;
        assert items[k] == prefix[k];
      }
      if exists k :: 0 <= k < |items| && Listed(items[k]) && IdOf(items[k]) == id {
        var k :| 0 <= k < |items| && Listed(items[k]) && IdOf(items[k]) == id;
        if k < n {
          assert prefix[k] == items[k];
        }
      }
    }
  }

  /** For a repeated id the last kept item wins: the entry of a kept item
      that no later kept item shares its id with is what the manifest holds. */
  lemma {:induction false} ManifestLastWins(items: seq<Element>, k: nat)
    requires k < |items| && Listed(items[k]) && LastWithId(items, k)
    ensures IdOf(items[k]) in ManifestOf(items)
    ensures ManifestOf(items)[IdOf(items[k])] == EntryOf(items[k])
    decreases |items|
  {
    var n := |items| - 1;
    if k < n {
      var prefix := items[..n];
      assert prefix[k] == items[k];
      assert LastWithId(prefix, k) by {
        forall j | k < j < |prefix|
          ensures !(Listed(prefix[j]) && IdOf(prefix[j]) == IdOf(prefix[k]))
        {
          assert prefix[j] == items[j];
        }
      }
      ManifestLastWins(prefix, k);
    }
  }

  /** Every manifest entry comes from a kept item with that id. */
  lemma {:induction false} ManifestEntriesFromItems(items: seq<Element>, id: string)
    requires id in ManifestOf(items)
    ensures exists k :: 0 <= k < |items| && Listed(items[k]) && IdOf(items[k]) == id
                        && ManifestOf(items)[id] == EntryOf(items[k])
    decreases |items|
  {
    var n := |items| - 1;
    var prefix := items[..n];
    if Listed(items[n]) && IdOf(items[n]) == id {
      assert ManifestOf(items)[id] == EntryOf(items[n]);
    } else {
      ManifestEntriesFromItems(prefix, id);
      var k :| 0 <= k < n && Listed(prefix[k]) && IdOf(prefix[k]) == id
               && ManifestOf(prefix)[id] == EntryOf(prefix[k]);
      assert prefix[k] == items[k];
    }
  }

  /** The namespace loop of parse_opf: the first declared URI that is
      non-empty and contains "opf", else the standard namespace. */
  method ChooseNamespace(nsmap: seq<string>) returns (opfNs: string)
    ensures opfNs == PackageNamespace(nsmap)
  {
    var i := 0;
    while i < |nsmap|
      invariant 0 <= i <= |nsmap|
      invariant forall j :: 0 <= j < i ==> !IsOpfUri(nsmap[j])
    {
      var uri := nsmap[i];
      if uri != [] && Contains(uri, "opf") {
        opfNs := uri;
        assert IsOpfUri(nsmap[i]);
        return;
      }
      i := i + 1;
    }
    opfNs := DefaultOpfNs;
  }

  /** The manifest loop of parse_opf: each item with a non-empty id and
      href sets that id's entry. */
  method BuildManifest(items: seq<Element>) returns (manifest: map<string, ManifestItem>)
    ensures manifest == ManifestOf(items)
  {
    manifest := map[];
    var n := 0;
    while n < |items|
      invariant 0 <= n <= |items|
      invariant manifest == ManifestOf(items[..n])
    {
      var item := items[n];
      assert items[..n + 1][..n] == items[..n];
      assert items[..n + 1][n] == item;
      var iid := Attr(item, "id");
      var href := Attr(item, "href");
      var media := Attr(item, "media-type");
      var props := AttrOr(item, "properties", "");
      if iid.Some? && iid.value != [] && href.Some? && href.value != [] {
        assert Listed(item) && EntryOf(item) == ManifestItem(href.value, media, props);
        manifest := manifest[iid.value := ManifestItem(href.value, media, props)];
      } else {
        assert !Listed(item);
      }
      n := n + 1;
    }
    assert items[..|items|] == items;
  }

  /** parse_opf: the manifest, the package document's directory and the
      package namespace (the root is the document's own). */
  method ParseOpf(opfPath: string, doc: PackageDocument)
    returns (manifest: map<string, ManifestItem>, opfDir: string, opfNs: string)
    ensures opfNs == PackageNamespace(doc.nsmap)
    ensures manifest == ManifestOf(ManifestElements(doc.root, opfNs))
    ensures opfDir == OpfDir(opfPath)
  {
    opfNs := ChooseNamespace(doc.nsmap);
    manifest := BuildManifest(ManifestElements(doc.root, opfNs));
    opfDir := OpfDir(opfPath);
  }

  // ---------------------------------------------------------------- find_first_content_path

  /** The `itemref` children of the root's first `spine` child, or None without a spine. */
  function SpineItemrefs(root: Element, ns: string): Option<seq<Element>>
  {
    match FindChild(root, ns, "spine")
    case None => None
    case Some(spine) => Some(FindChildren(spine, ns, "itemref"))
  }

  /** A media type of a markup content document. */
  predicate IsMarkup(mediaType: Option<string>)
  {
    mediaType == Some("application/xhtml+xml") || mediaType == Some("text/html")
  }

  function IdrefOf(itemref: Element): string
  {
    AttrOr(itemref, "idref", "")
  }

  /** An itemref eligible as first content: not marked `linear="no"` (exactly
      that value; an absent attribute means "yes"), its idref names a
      manifest entry, and that entry is a markup document. */
  predicate Readable(manifest: map<string, ManifestItem>, itemref: Element)
  {
    && AttrOr(itemref, "linear", "yes") != "no"
    && IdrefOf(itemref) != []
    && IdrefOf(itemref) in manifest
    && IsMarkup(manifest[IdrefOf(itemref)].mediaType)
  }

  /** The reference returned for an itemref: its manifest href resolved
      against the package directory, and the href itself. */
  function TargetOf(manifest: map<string, ManifestItem>, opfDir: string, itemref: Element): ContentRef
    requires IdrefOf(itemref) in manifest
  {
    var href := manifest[IdrefOf(itemref)].href;
    ContentRef(ResolveHref(opfDir, href), href)
  }

  /** The first readable itemref of `refs`, in order, as a reference; None
      when no itemref is readable. */
  function FirstReadable(manifest: map<string, ManifestItem>, opfDir: string, refs: seq<Element>)
    : (r: Option<ContentRef>)
    ensures r.None? <==> forall k :: 0 <= k < |refs| ==> !Readable(manifest, refs[k])
    ensures forall k :: (0 <= k < |refs| && Readable(manifest, refs[k])
                         && forall j :: 0 <= j < k ==> !Readable(manifest, refs[j])) ==>
              r == Some(TargetOf(manifest, opfDir, refs[k]))
  {
    hide TargetOf;
    if refs == [] then None
    else if Readable(manifest, refs[0]) then Some(TargetOf(manifest, opfDir, refs[0]))
    else
      var r := FirstReadable(manifest, opfDir, refs[1..]);
      assert forall k :: 1 <= k < |refs| ==> refs[k] == refs[1..][k - 1];
      r
  }

  /** find_first_content_path as a function: None without a spine, else the
      first readable itemref of the spine. */
  function FirstContent(manifest: map<string, ManifestItem>, opfDir: string, root: Element, ns: string)
    : Option<ContentRef>
  {
    match SpineItemrefs(root, ns)
    case None => None
    case Some(refs) => FirstReadable(manifest, opfDir, refs)
  }

  /** Whatever is chosen comes from an itemref that is linear, names an
      existing manifest entry and has a markup media type; its path is that
      entry's href resolved against the package directory. */
  lemma {:induction false} ChosenItemIsReadable(manifest: map<string, ManifestItem>, opfDir: string, refs: seq<Element>)
    requires FirstReadable(manifest, opfDir, refs).Some?
    ensures var c := FirstReadable(manifest, opfDir, refs).value;
            exists k :: 0 <= k < |refs|
              && AttrOr(refs[k], "linear", "yes") != "no"
              && IdrefOf(refs[k]) in manifest
              && IsMarkup(manifest[IdrefOf(refs[k])].mediaType)
              && c.href == manifest[IdrefOf(refs[k])].href
              && c.zipPath == ResolveHref(opfDir, c.href)
  {
    if !Readable(manifest, refs[0]) {
      ChosenItemIsReadable(manifest, opfDir, refs[1..]);
      var c := FirstReadable(manifest, opfDir, refs).value;
      var k :| 0 <= k < |refs[1..]|
              && AttrOr(refs[1..][k], "linear", "yes") != "no"
              && IdrefOf(refs[1..][k]) in manifest
              && IsMarkup(manifest[IdrefOf(refs[1..][k])].mediaType)
              && c.href == manifest[IdrefOf(refs[1..][k])].href
              && c.zipPath == ResolveHref(opfDir, c.href);
      assert refs[1..][k] == refs[k + 1];
    }
  }

  /** The itemref loop of find_first_content_path: returns at the first
      readable itemref. */
  method ScanSpine(manifest: map<string, ManifestItem>, opfDir: string, refs: seq<Element>)
    returns (r: Option<ContentRef>)
    ensures r == FirstReadable(manifest, opfDir, refs)
  {
    var i := 0;
    while i < |refs|
      invariant 0 <= i <= |refs|
      invariant forall j :: 0 <= j < i ==> !Readable(manifest, refs[j])
    {
      var itemref := refs[i];
      if AttrOr(itemref, "linear", "yes") != "no" {
        var idref := Attr(itemref, "idref");
        if idref.Some? && idref.value != [] && idref.value in manifest {
          var item := manifest[idref.value];
          if item.mediaType == Some("application/xhtml+xml") || item.mediaType == Some("text/html") {
            assert Readable(manifest, itemref);
            return Some(ContentRef(ResolveHref(opfDir, item.href), item.href));
          }
        }
      }
      i := i + 1;
    }
    return None;
  }

  /** find_first_content_path: None without a spine, else the spine's first
      readable itemref. */
  method FindFirstContentPath(manifest: map<string, ManifestItem>, opfDir: string, root: Element, ns: string)
    returns (r: Option<ContentRef>)
    ensures r == FirstContent(manifest, opfDir, root, ns)
  {
    var spine := FindChild(root, ns, "spine");
    if spine.None? {
      return None;
    }
    r := ScanSpine(manifest, opfDir, FindChildren(spine.value, ns, "itemref"));
  }
}
