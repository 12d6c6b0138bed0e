/**
 * Slugs: resolving a link target against the folder of the linking note
 * (`getSlugFromHref`) and turning Next's catch-all route parameter into one
 * path (`parseSlug`).
 */
module Slugs {
  import opened Wrappers
  import opened JsStrings
  import opened NodePath
  import opened Uri

  /** `s.replace(/\.md$/, "")`: one trailing `.md` removed, if there is one. */
  function StripMd(s: string): (r: string)
    ensures EndsWith(s, ".md") ==> r + ".md" == s
    ensures !EndsWith(s, ".md") ==> r == s
  {
    if EndsWith(s, ".md") then s[..|s| - 3] else s
  }

  /** Appending `.md` and stripping it again gives back the name. */
  lemma StripMdAppended(x: string)
    ensures StripMd(x + ".md") == x
  {
    assert (x + ".md")[|x|..] == ".md";
  }

  /** `slug.split(path.sep).slice(0, -1)`: the folders above a note. */
  function NoteDir(slug: string): (dir: seq<string>)
    ensures dir + [Split(slug, [Sep])[|Split(slug, [Sep])| - 1]] == Split(slug, [Sep])
    ensures forall k :: 0 <= k < |dir| ==> Sep !in dir[k]
  {
    var parts := Split(slug, [Sep]);
    SplitPiecesWithoutSeparator(slug, Sep);
    parts[..|parts| - 1]
  }

  /**
   * `getSlugFromHref(slug, href)`: `href` joined onto the folder of `slug`,
   * percent-decoded, one trailing `.md` removed. `None` is the `URIError`
   * of `decodeURI`. The slug is never longer than the joined path, and a
   * joined path without `%` only loses its `.md`.
   */
  function GetSlugFromHref(slug: string, href: string): (r: Option<string>)
    ensures r.Some? ==> |r.value| <= |PathJoin(NoteDir(slug) + [href])|
    ensures var p := PathJoin(NoteDir(slug) + [href]); '%' !in p ==> r == Some(StripMd(p))
  {
    var p := PathJoin(NoteDir(slug) + [href]);
    assert '%' !in p ==> DecodeURI(p) == Some(p) by {
      if '%' !in p { DecodeWithoutPercent(p); }
    }
    match DecodeURI(p)
    case None => None
    case Some(d) => Some(StripMd(d))
  }

  /**
   * `getSlugFromHref` throws exactly when the joined path has a `%` not
   * followed by two hex digits, or escapes of bytes at or above 0x80 that
   * are not well-formed UTF-8.
   */
  lemma SlugFromHrefThrows(slug: string, href: string)
    ensures GetSlugFromHref(slug, href).None? <==> !WellEscaped(PathJoin(NoteDir(slug) + [href]))
  {
    DecodeSucceedsIffWellEscaped(PathJoin(NoteDir(slug) + [href]));
  }

  /** The folders of a note whose path is `dir` followed by its own name. */
  lemma NoteDirOfJoin(dir: seq<string>, name: string)
    requires forall k :: 0 <= k < |dir| ==> Sep !in dir[k]
    requires Sep !in name
    ensures NoteDir(Join(dir + [name], [Sep])) == dir
  {
    var parts := dir + [name];
    assert forall k :: 0 <= k < |parts| ==> Sep !in parts[k];
    SplitJoinInverse(parts, Sep);
  }

  /** A canonical path is not empty and is the join of its plain segments. */
  lemma CanonicalSegments(t: string)
    requires IsCanonical(t)
    ensures t != "" && Join(Split(t, [Sep]), [Sep]) == t
    ensures forall k :: 0 <= k < |Split(t, [Sep])| ==> IsPlainSegment(Split(t, [Sep])[k])
  {
    SplitHeadIsPrefix(t, [Sep]);
    SplitJoinRoundTrip(t, [Sep]);
  }

  /** `path.join` of one non-empty path is its normal form. */
  lemma PathJoinOne(h: string)
    requires h != ""
    ensures PathJoin([h]) == Normalize(h)
  {
    assert NonEmpty([h]) == [h];
  }

  /** A note at the root resolves a target by normalising it alone. */
  lemma RootNoteResolves(slug: string, href: string)
    requires Sep !in slug && href != ""
    ensures GetSlugFromHref(slug, href)
            == match DecodeURI(Normalize(href)) case None => None case Some(d) => Some(StripMd(d))
  {
    SplitWithoutSeparator(slug, Sep);
    assert NoteDir(slug) + [href] == [href];
    PathJoinOne(href);
  }

  /** The path `getSlugFromHref` decodes, once it is known. */
  lemma SlugFromPath(slug: string, href: string, q: string)
    requires PathJoin(NoteDir(slug) + [href]) == q
    ensures GetSlugFromHref(slug, href)
            == match DecodeURI(q) case None => None case Some(d) => Some(StripMd(d))
  {
  }

  /** The note `d/name` lives in the folder `d`. */
  lemma NoteDirOneDeep(d: string, name: string)
    requires Sep !in d && Sep !in name
    ensures NoteDir(d + "/" + name) == [d]
  {
    assert Join([d] + [name], [Sep]) == d + "/" + name by {
      JoinCons(d, [name], [Sep]);
    }
    NoteDirOfJoin([d], name);
  }

  /** `d/../b` splits into its three segments. */
  lemma SplitParentPath(d: string, b: string)
    requires Sep !in d && Sep !in b
    ensures Split(d + "/" + "../" + b, [Sep]) == [d, "..", b]
  {
    assert d + "/" + "../" + b == d + [Sep] + (".." + [Sep] + b);
    SplitAround(d, ".." + [Sep] + b, Sep);
    SplitAround("..", b, Sep);
    SplitWithoutSeparator(d, Sep);
    SplitWithoutSeparator("..", Sep);
    SplitWithoutSeparator(b, Sep);
  }

  /** `path.join(d, "../" + b)` is `b`. */
  lemma JoinParentPath(d: string, b: string)
    requires IsPlainSegment(d) && IsPlainSegment(b)
    ensures PathJoin([d, "../" + b]) == b
  {
    var href := "../" + b;
    PathJoinNonEmpty([d, href]);
    var p := Join([d, href], [Sep]);
    assert p == d + "/" + href by {
      JoinCons(d, [href], [Sep]);
      assert [d] + [href] == [d, href];
    }
    assert p == d + "/" + "../" + b;
    SplitParentPath(d, b);
    ResolveParent(d, b);
    assert p[0] == d[0] && p[|p| - 1] == b[|b| - 1];
    NormalizeRelative(p);
  }

  /** A plain segment followed by `..` cancels out. */
  lemma ResolveParent(d: string, b: string)
    requires IsPlainSegment(d) && IsPlainSegment(b)
    ensures Resolve([], [d, "..", b], true) == [b]
  {
    assert Step([], d, true) == [d];
    assert Step([d], "..", true) == [];
    assert Step([], b, true) == [b];
    assert [d, "..", b][1..] == ["..", b];
    assert ["..", b][1..] == [b];
    assert Resolve([], [b], true) == Resolve([b], [], true) == [b];
    assert Resolve([d], ["..", b], true) == Resolve([], [b], true);
  }

  /** From a note one folder deep, `../b` reaches the root note `b`. */
  lemma ParentFolderLink(d: string, name: string, b: string)
    requires IsPlainSegment(d) && Sep !in name && IsPlainSegment(b)
    requires '%' !in b && !EndsWith(b, ".md")
    ensures GetSlugFromHref(d + "/" + name, "../" + b) == Some(b)
  {
    NoteDirOneDeep(d, name);
    assert [d] + ["../" + b] == [d, "../" + b];
    JoinParentPath(d, b);
    SlugFromPath(d + "/" + name, "../" + b, b);
    DecodeWithoutPercent(b);
  }

  /** `folder/a` linking to `../b` reaches `b`. */
  lemma ParentFolderExample()
    ensures GetSlugFromHref("folder/a", "../b") == Some("b")
  {
    ParentFolderLink("folder", "a", "b");
    assert "folder" + "/" + "a" == "folder/a";
    assert "../" + "b" == "../b";
  }

  /**
   * Relative to a note in the folders `dir`, a canonical target is appended
   * to those folders: nothing is normalised away.
   */
  lemma ResolvesInNoteFolder(dir: seq<string>, name: string, href: string)
    requires forall k :: 0 <= k < |dir| ==> IsPlainSegment(dir[k])
    requires Sep !in name
    requires IsCanonical(href)
    ensures var joined := Join(dir + Split(href, [Sep]), [Sep]);
            GetSlugFromHref(Join(dir + [name], [Sep]), href)
            == match DecodeURI(joined) case None => None case Some(d) => Some(StripMd(d))
  {
    NoteDirOfJoin(dir, name);
    CanonicalSegments(href);
    var segs := dir + Split(href, [Sep]);
    assert forall k :: 0 <= k < |segs| ==> IsPlainSegment(segs[k]);
    JoinSplitAppend(dir, href);
    JoinPlainSegments(segs);
    NonEmptyOfNonEmpty(segs);
    var args := dir + [href];
    assert forall k :: 0 <= k < |args| ==> args[k] != "";
    NonEmptyOfNonEmpty(args);
  }

  /** The segments of `t + ".md"`: the last segment of `t` gets the suffix. */
  function WithMdSuffix(segs: seq<string>): (r: seq<string>)
    requires segs != []
    ensures |r| == |segs| && r[..|r| - 1] == segs[..|segs| - 1]
    ensures r[|r| - 1] == segs[|segs| - 1] + ".md"
  {
    segs[..|segs| - 1] + [segs[|segs| - 1] + ".md"]
  }

  /** Suffixing the last of some plain segments keeps them plain. */
  lemma WithMdSuffixPlain(segs: seq<string>)
    requires segs != []
    requires forall k :: 0 <= k < |segs| ==> IsPlainSegment(segs[k])
    ensures forall k :: 0 <= k < |segs| ==> IsPlainSegment(WithMdSuffix(segs)[k])
  {
    var n := |segs|;
    var segs' := WithMdSuffix(segs);
    var last := segs[n - 1];
    assert IsPlainSegment(last);
    assert Sep !in last + ".md" by {
      assert forall i :: 0 <= i < |last| ==> (last + ".md")[i] == last[i];
      assert forall i :: |last| <= i < |last| + 3 ==> (last + ".md")[i] == ".md"[i - |last|];
    }
    assert |last + ".md"| >= 4;
    forall k | 0 <= k < n
      ensures IsPlainSegment(segs'[k])
    {
      if k < n - 1 {
        assert segs'[k] == segs'[..n - 1][k] == segs[..n - 1][k];
      }
    }
  }

  /** A canonical path with `.md` appended is made of plain segments too. */
  lemma CanonicalMdSegments(t: string)
    requires IsCanonical(t)
    ensures Split(t, [Sep]) != []
    ensures var segs' := WithMdSuffix(Split(t, [Sep]));
            && (forall k :: 0 <= k < |segs'| ==> IsPlainSegment(segs'[k]))
            && Join(segs', [Sep]) == t + ".md"
  {
    CanonicalSegments(t);
    var segs := Split(t, [Sep]);
    WithMdSuffixPlain(segs);
    JoinWithMdSuffix(segs);
  }

  /** Suffixing the last segment suffixes the joined path. */
  lemma JoinWithMdSuffix(segs: seq<string>)
    requires segs != []
    ensures Join(WithMdSuffix(segs), [Sep]) == Join(segs, [Sep]) + ".md"
  {
    var n := |segs|;
    var segs' := WithMdSuffix(segs);
    if n == 1 {
      assert segs' == [segs[0] + ".md"];
    } else {
      JoinAppend(segs[..n - 1], segs[n - 1] + ".md", [Sep]);
      JoinAppend(segs[..n - 1], segs[n - 1], [Sep]);
      assert segs[..n - 1] + [segs[n - 1]] == segs;
    }
  }

  /** Appending `.md` to a canonical path keeps it canonical and normal. */
  lemma CanonicalWithMd(t: string)
    requires IsCanonical(t)
    ensures Normalize(t + ".md") == t + ".md"
  {
    CanonicalMdSegments(t);
    var segs' := WithMdSuffix(Split(t, [Sep]));
    JoinPlainSegments(segs');
    NonEmptyOfNonEmpty(segs');
  }

  /**
   * A note at the root resolves a canonical slug `t` to itself, whether the
   * link is written `t` or `t.md`.
   */
  lemma RootNoteResolvesCanonical(slug: string, t: string)
    requires Sep !in slug
    requires IsCanonical(t) && '%' !in t && !EndsWith(t, ".md")
    ensures GetSlugFromHref(slug, t) == Some(t)
    ensures GetSlugFromHref(slug, t + ".md") == Some(t)
  {
    RootNoteResolvesPlain(slug, t);
    RootNoteResolvesMd(slug, t);
  }

  lemma RootNoteResolvesPlain(slug: string, t: string)
    requires Sep !in slug
    requires IsCanonical(t) && '%' !in t && !EndsWith(t, ".md")
    ensures GetSlugFromHref(slug, t) == Some(t)
  {
    CanonicalSegments(t);
    CanonicalIsNormal(t);
    RootNoteResolves(slug, t);
    DecodeWithoutPercent(t);
  }

  lemma RootNoteResolvesMd(slug: string, t: string)
    requires Sep !in slug
    requires IsCanonical(t) && '%' !in t
    ensures GetSlugFromHref(slug, t + ".md") == Some(t)
  {
    CanonicalWithMd(t);
    RootNoteResolves(slug, t + ".md");
    assert '%' !in t + ".md";
    DecodeWithoutPercent(t + ".md");
    StripMdAppended(t);
  }

  /** `path.join(d, d + "/" + n)` is `d/d/n`. */
  lemma NestedSelfPath(d: string, n: string)
    requires IsPlainSegment(d) && IsPlainSegment(n)
    ensures PathJoin(NoteDir(d + "/" + n) + [d + "/" + n]) == d + "/" + d + "/" + n
  {
    NoteDirOneDeep(d, n);
    var t := d + "/" + n;
    assert [d] + [t] == [d, t];
    PathJoinNonEmpty([d, t]);
    JoinPair(d, t, [Sep]);
    ThreePlainSegments(d, d, n);
  }

  /** Three plain segments joined are their own normal form. */
  lemma ThreePlainSegments(a: string, b: string, c: string)
    requires IsPlainSegment(a) && IsPlainSegment(b) && IsPlainSegment(c)
    ensures Normalize(a + "/" + (b + "/" + c)) == a + "/" + b + "/" + c
  {
    var segs := [a, b, c];
    var j := a + "/" + (b + "/" + c);
    assert Join(segs, [Sep]) == j by {
      JoinPair(b, c, [Sep]);
      JoinCons(a, [b, c], [Sep]);
      assert [a] + [b, c] == segs;
    }
    assert forall k :: 0 <= k < |segs| ==> IsPlainSegment(segs[k]);
    JoinPlainSegments(segs);
    PathJoinNonEmpty(segs);
    assert j == a + "/" + b + "/" + c;
  }

  /** A name ending in `.md` after a separator puts the `.md` in its last segment. */
  lemma EndsWithMdAfterSep(x: string, n: string)
    requires !EndsWith(n, ".md")
    ensures !EndsWith(x + "/" + n, ".md")
  {
    var r := x + "/" + n;
    if |n| >= 3 {
      assert r[|r| - 3..] == n[|n| - 3..];
    } else if |r| >= 3 {
      assert r[|r| - 1 - |n|] == Sep;
      assert r[|r| - 3..][2 - |n|] == Sep;
    }
  }

  /**
   * A note one folder deep that links to its own full slug `d/n` reaches
   * `d/d/n`: the target is read relative to the note's folder.
   */
  lemma NestedSelfResolution(d: string, n: string)
    requires IsPlainSegment(d) && IsPlainSegment(n)
    requires '%' !in d && '%' !in n && !EndsWith(n, ".md")
    ensures GetSlugFromHref(d + "/" + n, d + "/" + n) == Some(d + "/" + d + "/" + n)
  {
    var r := d + "/" + d + "/" + n;
    NestedSelfPath(d, n);
    SlugFromPath(d + "/" + n, d + "/" + n, r);
    assert '%' !in r;
    DecodeWithoutPercent(r);
    EndsWithMdAfterSep(d + "/" + d, n);
  }

  /** `folder/a` linking to `folder/a` reaches `folder/folder/a`, not itself. */
  lemma NestedSelfExample()
    ensures GetSlugFromHref("folder/a", "folder/a") == Some("folder/folder/a")
  {
    var d, n := "folder", "a";
    assert d + "/" + n == "folder/a";
    assert d + "/" + d + "/" + n == "folder/folder/a";
    assert IsPlainSegment(d) && IsPlainSegment(n);
    assert '%' !in d && '%' !in n && !EndsWith(n, ".md");
    NestedSelfResolution(d, n);
  }

  /** The path `getSlugFromHref` decodes climbs above the root. */
  lemma EscapingJoin(dir: seq<string>, name: string, href: string)
    requires forall k :: 0 <= k < |dir| ==> IsPlainSegment(dir[k])
    requires Sep !in name
    requires |Split(href, [Sep])| > |dir|
    requires forall k :: 0 <= k <= |dir| ==> Split(href, [Sep])[k] == ".."
    ensures StartsAboveRoot(PathJoin(NoteDir(Join(dir + [name], [Sep])) + [href]))
  {
    NoteDirOfJoin(dir, name);
    var hs := Split(href, [Sep]);
    SplitHeadIsPrefix(href, [Sep]);
    var args := dir + [href];
    assert forall k :: 0 <= k < |args| ==> args[k] != "";
    PathJoinNonEmpty(args);
    var p := Join(args, [Sep]);
    SplitJoinAppend(dir, href);
    var head := (dir + hs)[0];
    assert head != "" && Sep !in head;
    SplitHeadIsPrefix(p, [Sep]);
    assert p[0] == head[0];
    ClimbAboveRoot(dir, hs);
    NormalizeKeepsLeadingUp(p);
  }

  /** Stripping `.md` keeps a leading `..` segment. */
  lemma StripMdKeepsAboveRoot(s: string)
    requires StartsAboveRoot(s)
    ensures StartsAboveRoot(StripMd(s))
  {
    if s != ".." && EndsWith(s, ".md") {
      assert s[..3] == "../";
      assert s[|s| - 3..] == ".md";
      assert forall i :: |s| - 3 <= i < |s| ==> s[i] != '/';
      assert s[2] == '/';
      assert StripMd(s)[..3] == s[..3];
    }
  }

  /** Decoding keeps a leading `..` segment. */
  lemma DecodeKeepsAboveRoot(q: string, d: string)
    requires StartsAboveRoot(q)
    requires DecodeURI(q) == Some(d)
    ensures StartsAboveRoot(d)
  {
    var p := if q == ".." then ".." else "../";
    assert q == p + q[|p|..];
    DecodeKeepsPlainPrefix(p, q[|p|..]);
    assert d == p + DecodeURI(q[|p|..]).value;
    assert d[..|p|] == p;
  }

  /** Decoding and stripping `.md` keep a leading `..` segment. */
  lemma DecodeStripKeepsAboveRoot(q: string)
    requires StartsAboveRoot(q)
    ensures match DecodeURI(q) case None => true case Some(d) => StartsAboveRoot(StripMd(d))
  {
    if DecodeURI(q).Some? {
      var d := DecodeURI(q).value;
      DecodeKeepsAboveRoot(q, d);
      StripMdKeepsAboveRoot(d);
    }
  }

  /**
   * A target with more leading `..` than the note has folders resolves to a
   * path above the root, which no canonical slug matches: `getLinksMapping`
   * drops such links.
   */
  lemma EscapingLinkIsNotCanonical(dir: seq<string>, name: string, href: string)
    requires forall k :: 0 <= k < |dir| ==> IsPlainSegment(dir[k])
    requires Sep !in name
    requires |Split(href, [Sep])| > |dir|
    requires forall k :: 0 <= k <= |dir| ==> Split(href, [Sep])[k] == ".."
    ensures match GetSlugFromHref(Join(dir + [name], [Sep]), href)
            case None => true
            case Some(r) => StartsAboveRoot(r) && !IsCanonical(r)
  {
    EscapingJoin(dir, name, href);
    DecodeStripKeepsAboveRoot(PathJoin(NoteDir(Join(dir + [name], [Sep])) + [href]));
    match GetSlugFromHref(Join(dir + [name], [Sep]), href)
    case None =>
    case Some(r) => AboveRootNotCanonical(r);
  }

  // ---------------------------------------------------------------------
  // parseSlug

  /** Next's `params.slug`: one string, or the segments of a catch-all route. */
  datatype SlugParam = StringParam(value: string) | ArrayParam(items: seq<string>)

  /** `parseSlug(slug)` */
  method ParseSlug(slug: SlugParam) returns (r: string)
    ensures slug.StringParam? ==> r == PathJoin([slug.value])
    ensures slug.ArrayParam? ==> r == PathJoin(slug.items)
    ensures Normalize(r) == r
  {
    var slugArr: seq<string> := [];
    if slug.StringParam? {
      slugArr := slugArr + [slug.value];
    }
    if slug.ArrayParam? {
      slugArr := slugArr + slug.items;
    }
    assert slug.StringParam? ==> slugArr == [slug.value];
    assert slug.ArrayParam? ==> slugArr == slug.items;
    r := PathJoin(slugArr);
    PathJoinIsNormal(slugArr);
  }

  /** What `path.join` returns is already normal. */
  lemma PathJoinIsNormal(args: seq<string>)
    ensures Normalize(PathJoin(args)) == PathJoin(args)
  {
    PathJoinIdempotent(args);
    var r := PathJoin(args);
    assert NonEmpty([r]) == [r];
  }

  /**
   * The route segments of a canonical slug come back as that slug: the page
   * for `s` is generated from `s.split(path.sep)` and parsed back.
   */
  lemma ParseSlugRoundTrip(s: string)
    requires IsCanonical(s)
    ensures PathJoin(Split(s, [Sep])) == s
  {
    var segs := Split(s, [Sep]);
    JoinPlainSegments(segs);
    SplitJoinRoundTrip(s, [Sep]);
  }
}
