/** The part of Python's `PurePosixPath` that check_titlepage.py relies on:
    parsing a string into an anchor and segments, `/` (joining), `.parent`,
    `.name` and `.as_posix()`. Parsing drops empty and "." segments and keeps
    ".." verbatim: it is not a normaliser. Zip-internal paths are POSIX paths. */
module PosixPaths {
  import opened Strings

  /** A parsed path: its anchor ("", "/" or, as POSIX allows, "//") and its segments. */
  datatype PurePath = PurePath(root: string, parts: seq<string>)

  /** The anchor of a path string: exactly two leading slashes are kept as
      "//", one or three and more collapse to "/". */
  function RootOf(s: string): (r: string)
    ensures r == [] || r == "/" || r == "//"
    ensures r != [] <==> (s != [] && s[0] == '/')
  {
    if |s| >= 2 && s[0] == '/' && s[1] == '/' && (|s| == 2 || s[2] != '/') then "//"
    else if |s| >= 1 && s[0] == '/' then "/"
    else ""
  }

  /** A segment that parsing keeps: not empty and not ".". */
  predicate Kept(seg: string)
  {
    seg != [] && seg != "."
  }

  function KeptSegments(segs: seq<string>): (r: seq<string>)
    ensures forall k :: 0 <= k < |r| ==> Kept(r[k])
    ensures (forall k :: 0 <= k < |segs| ==> Kept(segs[k])) ==> r == segs
  {
    if segs == [] then []
    else if Kept(segs[0]) then [segs[0]] + KeptSegments(segs[1..])
    else KeptSegments(segs[1..])
  }

  lemma {:induction false} KeptSegmentsAppend(a: seq<string>, b: seq<string>)
    ensures KeptSegments(a + b) == KeptSegments(a) + KeptSegments(b)
  {
    if a == [] {
      assert a + b == b;
    } else {
      assert (a + b)[1..] == a[1..] + b;
      KeptSegmentsAppend(a[1..], b);
    }
  }

  /** `PurePosixPath(s)`. */
  function Parse(s: string): (p: PurePath)
    ensures forall k :: 0 <= k < |p.parts| ==> Kept(p.parts[k]) && '/' !in p.parts[k]
  {
    var segs := Split(s, '/');
    var kept := KeptSegments(segs);
    KeptSegmentsSubset(segs);
    PurePath(RootOf(s), kept)
  }

  lemma {:induction false} KeptSegmentsSubset(segs: seq<string>)
    requires forall k :: 0 <= k < |segs| ==> '/' !in segs[k]
    ensures forall k :: 0 <= k < |KeptSegments(segs)| ==> '/' !in KeptSegments(segs)[k]
  {
    if segs != [] {
      KeptSegmentsSubset(segs[1..]);
    }
  }

  /** `str(path)` / `path.as_posix()`: the empty path prints as ".". */
  function Format(p: PurePath): string
  {
    if p.root == [] && p.parts == [] then "." else p.root + Join(p.parts, "/")
  }

  /** `a / b`: an anchored right-hand side replaces the left-hand side. */
  function Append(a: PurePath, b: PurePath): PurePath
  {
    if b.root != [] then b else PurePath(a.root, a.parts + b.parts)
  }

  /** `path.parent`: the last segment dropped; an anchor or the empty path is its own parent. */
  function Parent(p: PurePath): PurePath
  {
    if p.parts == [] then p else PurePath(p.root, p.parts[..|p.parts| - 1])
  }

  /** `path.name`: the last segment, "" when there is none. */
  function Name(p: PurePath): string
  {
    if p.parts == [] then "" else p.parts[|p.parts| - 1]
  }

  /** resolve_href: `(PurePosixPath(opf_dir) / PurePosixPath(href)).as_posix()`. */
  function ResolveHref(opfDir: string, href: string): (r: string)
    ensures r != []
  {
    Format(Append(Parse(opfDir), Parse(href)))
  }

  /** The package document's directory: `PurePosixPath(opf_path).parent.as_posix()`. */
  function OpfDir(opfPath: string): (r: string)
    ensures r != []
  {
    Format(Parent(Parse(opfPath)))
  }

  /** `Path(href).name`, the final component of a (POSIX) path string. */
  function BaseName(path: string): (r: string)
    ensures '/' !in r && r != "."
    ensures r == [] <==> Parse(path).parts == []
  {
    Name(Parse(path))
  }

  /** The directory string names the parent path: parsing it gives
      `PurePosixPath(opf_path).parent` back. */
  lemma OpfDirIsParent(opfPath: string)
    ensures Parse(OpfDir(opfPath)) == Parent(Parse(opfPath))
  {
    var q := Parent(Parse(opfPath));
    assert WellFormed(q);
    ParseFormat(q);
  }

  /** A relative path already in the form pathlib prints: one or more
      segments, none empty and none ".", separated by single slashes. */
  predicate IsNormalRelative(s: string)
  {
    s != [] && forall k :: 0 <= k < |Split(s, '/')| ==> Kept(Split(s, '/')[k])
  }

  /** A path whose segments are well formed and whose anchor is one pathlib produces. */
  predicate WellFormed(p: PurePath)
  {
    && (p.root == [] || p.root == "/" || p.root == "//")
    && forall k :: 0 <= k < |p.parts| ==> Kept(p.parts[k]) && '/' !in p.parts[k]
  }

  lemma {:induction false} JoinStartsWithFirstPart(parts: seq<string>)
    requires parts != [] && parts[0] != []
    ensures Join(parts, "/") != [] && Join(parts, "/")[0] == parts[0][0]
  {
  }

  /** A leading slash only adds an empty segment, which parsing drops. */
  lemma {:induction false} KeptAfterSlash(s: string)
    ensures KeptSegments(Split("/" + s, '/')) == KeptSegments(Split(s, '/'))
  {
    assert "/" + s == [] + "/" + s;
    SplitAtSeparator([], s, '/');
    KeptSegmentsAppend([[]], Split(s, '/'));
  }

  lemma {:induction false} KeptOfJoin(parts: seq<string>)
    requires forall k :: 0 <= k < |parts| ==> Kept(parts[k]) && '/' !in parts[k]
    ensures KeptSegments(Split(Join(parts, "/"), '/')) == parts
  {
    if parts != [] {
      SplitJoin(parts, '/');
    }
  }

  lemma {:induction false} RootOfJoin(parts: seq<string>, prefix: string)
    requires parts != [] && Kept(parts[0]) && '/' !in parts[0]
    requires prefix == [] || prefix == "/" || prefix == "//"
    ensures RootOf(prefix + Join(parts, "/")) == prefix
  {
    JoinStartsWithFirstPart(parts);
    assert parts[0][0] in parts[0];
    var s := prefix + Join(parts, "/");
    assert s[|prefix|] == parts[0][0];
  }

  /** Every path pathlib produces parses back to itself: printing and parsing
      are inverse on parsed paths. */
  lemma {:induction false} ParseFormat(p: PurePath)
    requires WellFormed(p)
    ensures Parse(Format(p)) == p
  {
    KeptOfJoin(p.parts);
    if p.parts != [] {
      RootOfJoin(p.parts, p.root);
    }
    if p.root == [] {
      ParseFormatUnanchored(p);
    } else if p.root == "/" {
      ParseFormatAnchored(p);
    } else {
      ParseFormatDoubleAnchored(p);
    }
  }

  lemma {:induction false} ParseFormatUnanchored(p: PurePath)
    requires WellFormed(p) && p.root == []
    requires KeptSegments(Split(Join(p.parts, "/"), '/')) == p.parts
    requires p.parts != [] ==> RootOf(p.root + Join(p.parts, "/")) == p.root
    ensures Parse(Format(p)) == p
  {
    var j := Join(p.parts, "/");
    if p.parts != [] {
      assert Format(p) == j == [] + j;
    } else {
      SplitNoSeparator(".", '/');
    }
  }

  lemma {:induction false} ParseFormatAnchored(p: PurePath)
    requires WellFormed(p) && p.root == "/"
    requires KeptSegments(Split(Join(p.parts, "/"), '/')) == p.parts
    requires p.parts != [] ==> RootOf(p.root + Join(p.parts, "/")) == p.root
    ensures Parse(Format(p)) == p
  {
    var j := Join(p.parts, "/");
    assert Format(p) == "/" + j;
    KeptAfterSlash(j);
  }

  lemma {:induction false} ParseFormatDoubleAnchored(p: PurePath)
    requires WellFormed(p) && p.root == "//"
    requires KeptSegments(Split(Join(p.parts, "/"), '/')) == p.parts
    requires p.parts != [] ==> RootOf(p.root + Join(p.parts, "/")) == p.root
    ensures Parse(Format(p)) == p
  {
    var j := Join(p.parts, "/");
    assert Format(p) == "/" + ("/" + j);
    KeptAfterSlash("/" + j);
    KeptAfterSlash(j);
  }

  /** Parsing a normal relative path keeps every segment and adds no anchor. */
  lemma {:induction false} ParseNormalRelative(s: string)
    requires IsNormalRelative(s)
    ensures Parse(s) == PurePath([], Split(s, '/'))
  {
  }

  /** Printing a parsed normal relative path gives the path back. */
  lemma {:induction false} FormatParseNormalRelative(s: string)
    requires IsNormalRelative(s)
    ensures Format(Parse(s)) == s
  {
    ParseNormalRelative(s);
    JoinSplit(s, '/');
  }

  /** A package document at the top level of the archive has "." as its directory. */
  lemma {:induction false} OpfDirTopLevel(name: string)
    requires IsNormalRelative(name) && '/' !in name
    ensures OpfDir(name) == "."
  {
    ParseNormalRelative(name);
    SplitNoSeparator(name, '/');
  }

  lemma {:induction false} SplitNested(dir: string, name: string)
    requires IsNormalRelative(dir) && IsNormalRelative(name) && '/' !in name
    ensures IsNormalRelative(dir + "/" + name)
    ensures Split(dir + "/" + name, '/') == Split(dir, '/') + [name]
  {
    JoinSplit(dir, '/');
    SplitNoSeparator(name, '/');
    JoinAppend(Split(dir, '/'), [name], "/");
    SplitJoin(Split(dir, '/') + [name], '/');
  }

  /** A package document below the top level has its directory path as `opf_dir`. */
  lemma {:induction false} OpfDirNested(dir: string, name: string)
    requires IsNormalRelative(dir) && IsNormalRelative(name) && '/' !in name
    ensures OpfDir(dir + "/" + name) == dir
  {
    SplitNested(dir, name);
    ParseNormalRelative(dir + "/" + name);
    var segs := Split(dir, '/') + [name];
    assert segs[..|segs| - 1] == Split(dir, '/');
    ParseNormalRelative(dir);
    FormatParseNormalRelative(dir);
  }

  /** The base name of a nested normal path is its last segment. */
  lemma {:induction false} BaseNameNested(dir: string, name: string)
    requires IsNormalRelative(dir) && IsNormalRelative(name) && '/' !in name
    ensures BaseName(dir + "/" + name) == name
    ensures BaseName(name) == name
  {
    SplitNested(dir, name);
    ParseNormalRelative(dir + "/" + name);
    ParseNormalRelative(name);
    SplitNoSeparator(name, '/');
  }

  /** Resolving against the top-level directory "." leaves a normal relative href unchanged. */
  lemma {:induction false} ResolveAtTopLevel(href: string)
    requires IsNormalRelative(href)
    ensures ResolveHref(".", href) == href
  {
    assert Split(".", '/') == ["."] by {
      SplitNoSeparator(".", '/');
    }
    assert Parse(".") == PurePath([], []);
    ParseNormalRelative(href);
    assert Append(Parse("."), Parse(href)) == Parse(href);
    FormatParseNormalRelative(href);
  }

  /** Resolving a normal relative href against a normal directory is plain
      concatenation with one slash. */
  lemma {:induction false} ResolveNested(dir: string, href: string)
    requires IsNormalRelative(dir) && IsNormalRelative(href)
    ensures ResolveHref(dir, href) == dir + "/" + href
  {
    ParseNormalRelative(dir);
    ParseNormalRelative(href);
    JoinAppend(Split(dir, '/'), Split(href, '/'), "/");
    JoinSplit(dir, '/');
    JoinSplit(href, '/');
  }

  /** ".." segments are not collapsed: they survive resolution verbatim. */
  lemma {:induction false} ResolveKeepsParentSegments(dir: string, href: string)
    requires IsNormalRelative(dir) && IsNormalRelative(href)
    ensures ResolveHref(dir, "../" + href) == dir + "/../" + href
  {
    assert "../" + href == ".." + "/" + href;
    SplitAtSeparator("..", href, '/');
    assert IsNormalRelative("../" + href);
    ResolveNested(dir, "../" + href);
  }

  /** A "." segment at the start of a relative href is dropped. */
  lemma {:induction false} ResolveDropsCurrentSegments(dir: string, href: string)
    requires RootOf(href) == []
    ensures ResolveHref(dir, "./" + href) == ResolveHref(dir, href)
  {
    assert "./" + href == "." + "/" + href;
    SplitAtSeparator(".", href, '/');
    KeptSegmentsAppend(["."], Split(href, '/'));
  }

  /** Inside a path, a doubled slash reads as one slash: parsing drops the
      empty segment it makes. */
  lemma {:induction false} ParseDropsInnerEmpty(a: string, b: string)
    requires a != [] && a[|a| - 1] != '/'
    ensures Parse(a + "//" + b) == Parse(a + "/" + b)
  {
    var s1, s2 := a + "//" + b, a + "/" + b;
    assert s1 == a + ['/'] + ("/" + b);
    assert s2 == a + ['/'] + b;
    assert "/" + b == [] + ['/'] + b;
    SplitAppend(a, "/" + b, '/');
    SplitAppend([], b, '/');
    SplitAppend(a, b, '/');
    KeptSegmentsAppend(Split(a, '/'), Split("/" + b, '/'));
    KeptSegmentsAppend([[]], Split(b, '/'));
    KeptSegmentsAppend(Split(a, '/'), Split(b, '/'));
    assert KeptSegments(Split(s1, '/')) == KeptSegments(Split(s2, '/'));
    RootOfInner(a, "/" + b, b);
  }

  /** Inside a path, "/./" reads as one slash: parsing drops the "."
      segment it makes. */
  lemma {:induction false} ParseDropsInnerCurrent(a: string, b: string)
    requires a != [] && a[|a| - 1] != '/'
    ensures Parse(a + "/./" + b) == Parse(a + "/" + b)
  {
    var s1, s2 := a + "/./" + b, a + "/" + b;
    assert s1 == a + ['/'] + ("./" + b);
    assert s2 == a + ['/'] + b;
    assert "./" + b == "." + ['/'] + b;
    SplitAppend(a, "./" + b, '/');
    SplitAppend(".", b, '/');
    SplitNoSeparator(".", '/');
    SplitAppend(a, b, '/');
    KeptSegmentsAppend(Split(a, '/'), Split("./" + b, '/'));
    KeptSegmentsAppend(["."], Split(b, '/'));
    KeptSegmentsAppend(Split(a, '/'), Split(b, '/'));
    assert KeptSegments(Split(s1, '/')) == KeptSegments(Split(s2, '/'));
    RootOfInner(a, "./" + b, b);
  }

  /** Two strings that agree on a first segment and the slash after it
      have the same anchor. */
  lemma RootOfInner(a: string, b: string, c: string)
    requires a != [] && a[|a| - 1] != '/'
    ensures RootOf(a + "/" + b) == RootOf(a + "/" + c)
  {
    var s, t := a + "/" + b, a + "/" + c;
    assert s[0] == t[0] == a[0];
    if |a| >= 2 {
      assert s[1] == t[1] == a[1];
      if |a| == 2 {
        assert s[1] != '/';
      } else {
        assert s[2] == t[2] == a[2];
      }
    } else {
      assert s[0] != '/';
    }
  }

  /** An absolute href replaces the directory entirely. */
  lemma {:induction false} ResolveAbsolute(dir: string, href: string)
    requires IsNormalRelative(href)
    ensures ResolveHref(dir, "/" + href) == "/" + href
  {
    ParseNormalRelative(href);
    assert "/" + href == [] + "/" + href;
    SplitAtSeparator([], href, '/');
    KeptSegmentsAppend([[]], Split(href, '/'));
    JoinSplit(href, '/');
  }

  /** Resolving an href found in a package document at `dir/name` yields
      `dir/href`; for a top-level package document it yields `href`. */
  lemma {:induction false} ResolveFromPackageDocument(dir: string, name: string, href: string)
    requires IsNormalRelative(dir) && IsNormalRelative(name) && '/' !in name
    requires IsNormalRelative(href)
    ensures ResolveHref(OpfDir(dir + "/" + name), href) == dir + "/" + href
    ensures ResolveHref(OpfDir(name), href) == href
  {
    OpfDirNested(dir, name);
    ResolveNested(dir, href);
    OpfDirTopLevel(name);
    ResolveAtTopLevel(href);
  }

  /** The result of resolution is already in printed form: parsing it again
      gives the joined path, so resolving twice changes nothing. */
  lemma {:induction false} ResolveIsNormalised(dir: string, href: string)
    ensures Parse(ResolveHref(dir, href)) == Append(Parse(dir), Parse(href))
    ensures Format(Parse(ResolveHref(dir, href))) == ResolveHref(dir, href)
  {
    var p := Append(Parse(dir), Parse(href));
    assert WellFormed(p);
    ParseFormat(p);
  }
}
