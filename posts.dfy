/**
 * Posts: reading one note into a post (`parseFileToObj`), picking the
 * requested fields of it (`getPostBySlug`) and listing every post newest
 * first (`getAllPosts`).
 *
 * The notes directory is a map from a file's full path to what
 * `gray-matter` makes of its text: the front matter and the body. Reading a
 * path that is not in the map is the error `readFileSync` throws.
 */
module Posts {
  import opened Wrappers
  import opened JsStrings
  import opened NodePath
  import opened Uri
  import opened Excerpt
  import opened Slugs

  datatype Author = Author(name: string, picture: string)
  datatype OgImage = OgImage(url: string)

  /**
   * The `PostType` record as `parseFileToObj` fills it. Its `allowed` field
   * is never set there, so it is not stored here: reading it gives
   * `Undefined` (see `FieldOf`).
   */
  datatype Post = Post(
    slug: string,
    content: string,
    author: Author,
    date: string,
    ogImage: OgImage,
    excerpt: string,
    title: string)

  /**
   * The front matter: its string-valued keys, and the objects under
   * `author` and `ogImage` when those keys hold objects.
   */
  datatype FrontMatter = FrontMatter(
    scalars: map<string, string>,
    author: Option<map<string, string>>,
    ogImage: Option<map<string, string>>)

  datatype RawNote = RawNote(frontMatter: FrontMatter, content: string)

  /** A file system: full path to parsed file. */
  type Files = map<string, RawNote>

  datatype LoadError =
    | NotFound(path: string)   // `readFileSync` on a missing file
    | BadEscape(text: string)  // `decodeURI` throwing on a title

  /** `value || fallback` for a value that may be missing: `""` is falsy. */
  function Or(m: map<string, string>, key: string, fallback: string): (r: string)
    ensures key in m && m[key] != "" ==> r == m[key]
    ensures !(key in m && m[key] != "") ==> r == fallback
  {
    if key in m && m[key] != "" then m[key] else fallback
  }

  /** `data[key]?.field || ""` for an object that may be missing. */
  function OrEmpty(obj: Option<map<string, string>>, field: string): (r: string)
    ensures obj.None? ==> r == ""
    ensures obj.Some? ==> r == Or(obj.value, field, "")
  {
    match obj
    case None => ""
    case Some(m) => Or(m, field, "")
  }

  /** `path.join(mdDir, `${fullSlug}.md`)` */
  function FullPath(mdDir: string, fullSlug: string): string
  {
    PathJoin([mdDir, fullSlug + ".md"])
  }

  /**
   * The title `parseFileToObj` falls back to: the file name without `.md`,
   * percent-decoded.
   */
  function FallbackTitle(fullPath: string): Option<string>
  {
    DecodeURI(BaseName(fullPath, ".md"))
  }

  /** The front matter's own title, when it has a truthy one. */
  predicate HasTitle(fm: FrontMatter)
  {
    "title" in fm.scalars && fm.scalars["title"] != ""
  }

  /**
   * `parseFileToObj(fullSlug)`. Fields are computed in the order the object
   * literal lists them; the only ones that can fail are the read and the
   * title's `decodeURI`, which runs only when the front matter has no title.
   */
  function ParseFileToObj(files: Files, mdDir: string, fullSlug: string, removeMd: string -> string)
    : (r: Result<Post, LoadError>)
    ensures FullPath(mdDir, fullSlug) !in files ==> r == Err(NotFound(FullPath(mdDir, fullSlug)))
    ensures r.Err? <==>
      || FullPath(mdDir, fullSlug) !in files
      || (!HasTitle(files[FullPath(mdDir, fullSlug)].frontMatter) && FallbackTitle(FullPath(mdDir, fullSlug)).None?)
    ensures r.Ok? ==> r.value.slug == fullSlug && r.value.content == files[FullPath(mdDir, fullSlug)].content
  {
    var fullPath := FullPath(mdDir, fullSlug);
    if fullPath !in files then Err(NotFound(fullPath))
    else
      var note := files[fullPath];
      var data := note.frontMatter;
      var title :=
        if HasTitle(data) then Some(data.scalars["title"]) else FallbackTitle(fullPath);
      match title
      case None => Err(BadEscape(BaseName(fullPath, ".md")))
      case Some(t) =>
        Ok(Post(
          slug := fullSlug,
          content := note.content,
          author := Author(OrEmpty(data.author, "name"), OrEmpty(data.author, "picture")),
          date := Or(data.scalars, "date", ""),
          ogImage := OgImage(OrEmpty(data.ogImage, "url")),
          excerpt := Or(data.scalars, "excerpt", GetMDExcerpt(note.content, DefaultExcerptLength, removeMd)),
          title := t))
  }

  /**
   * Front matter wins where it is truthy; elsewhere the date, author and
   * image fall back to `""` and the excerpt to the first 500 characters of
   * the stripped body. The author's name and picture and the image URL
   * each fall back on their own, whether or not their object is present.
   */
  lemma ParsedFieldsDefault(files: Files, mdDir: string, fullSlug: string, removeMd: string -> string)
    requires ParseFileToObj(files, mdDir, fullSlug, removeMd).Ok?
    ensures var p := ParseFileToObj(files, mdDir, fullSlug, removeMd).value;
            var note := files[FullPath(mdDir, fullSlug)];
            var fm := note.frontMatter;
            && (p.date == "" <==> !("date" in fm.scalars && fm.scalars["date"] != ""))
            && ("date" in fm.scalars && fm.scalars["date"] != "" ==> p.date == fm.scalars["date"])
            && (fm.author.None? ==> p.author == Author("", ""))
            && (fm.ogImage.None? ==> p.ogImage.url == "")
            && (!("excerpt" in fm.scalars && fm.scalars["excerpt"] != "") ==>
                  p.excerpt == GetMDExcerpt(note.content, DefaultExcerptLength, removeMd)
                  && |p.excerpt| <= 500)
            && (HasTitle(fm) ==> p.title == fm.scalars["title"])
            && p.author == Author(OrEmpty(fm.author, "name"), OrEmpty(fm.author, "picture"))
            && p.ogImage.url == OrEmpty(fm.ogImage, "url")
            && p.excerpt == Or(fm.scalars, "excerpt", GetMDExcerpt(note.content, DefaultExcerptLength, removeMd))
  {
  }

  /** A note with no title of its own whose file name decodes is titled by the decoded name. */
  lemma ParsedFallbackTitle(files: Files, mdDir: string, fullSlug: string, removeMd: string -> string, name: string)
    requires FullPath(mdDir, fullSlug) in files
    requires !HasTitle(files[FullPath(mdDir, fullSlug)].frontMatter)
    requires FallbackTitle(FullPath(mdDir, fullSlug)) == Some(name)
    ensures ParseFileToObj(files, mdDir, fullSlug, removeMd).Ok?
    ensures ParseFileToObj(files, mdDir, fullSlug, removeMd).value.title == name
  {
  }

  /**
   * The file name of a note stored at a canonical path under an absolute
   * notes directory, without `.md`, is the path's last segment: without a
   * title in the front matter, that (decoded) is the note's title.
   */
  lemma FileNameOfFullPath(root: seq<string>, fullSlug: string)
    requires root != [] && forall k :: 0 <= k < |root| ==> IsPlainSegment(root[k])
    requires IsCanonical(fullSlug)
    ensures var segs := Split(fullSlug, [Sep]);
            segs != [] && BaseName(FullPath(Render(root, true, false), fullSlug), ".md") == segs[|segs| - 1]
  {
    var segs := Split(fullSlug, [Sep]);
    var all := FullPathRendered(root, fullSlug);
    var name := segs[|segs| - 1];
    BaseNameOfRendered(all, ".md");
    CutMd(name);
  }

  /** The full path of a note at a canonical path is the root's segments, then the note's, the last with `.md`. */
  lemma FullPathRendered(root: seq<string>, fullSlug: string) returns (all: seq<string>)
    requires root != [] && forall k :: 0 <= k < |root| ==> IsPlainSegment(root[k])
    requires IsCanonical(fullSlug)
    ensures var segs := Split(fullSlug, [Sep]);
            && segs != [] && segs[|segs| - 1] != ""
            && all != [] && all[|all| - 1] == segs[|segs| - 1] + ".md"
            && (forall k :: 0 <= k < |all| ==> IsPlainSegment(all[k]))
            && FullPath(Render(root, true, false), fullSlug) == Render(all, true, false)
  {
    CanonicalMdSegments(fullSlug);
    var segs := Split(fullSlug, [Sep]);
    var segs' := WithMdSuffix(segs);
    PathJoinUnderRoot(root, segs');
    all := root + segs';
    assert forall k :: 0 <= k < |all| ==> IsPlainSegment(all[k]);
    CanonicalSegments(fullSlug);
    assert IsPlainSegment(segs[|segs| - 1]);
  }

  /** `name + ".md"` ends with `.md`, is not `.md` itself, and cutting the suffix gives `name`. */
  lemma CutMd(name: string)
    requires name != ""
    ensures var last := name + ".md";
            EndsWith(last, ".md") && last != ".md" && last[..|last| - 3] == name
  {
    var last := name + ".md";
    assert last[|last| - 3..] == ".md";
  }

  // ---------------------------------------------------------------------
  // getPostBySlug: the requested fields of a post

  /** The keys of `PostType`. */
  datatype Field =
    | SlugField | ExcerptField | TitleField | AllowedField
    | ContentField | DateField | AuthorField | OgImageField

  datatype FieldValue =
    | Text(text: string)
    | AuthorValue(author: Author)
    | OgImageValue(ogImage: OgImage)
    | Undefined

  /** A post with only some of its fields: `Pick<PostType, T>`. */
  type PostRecord = map<Field, FieldValue>

  /** `data[field]` */
  function FieldOf(p: Post, f: Field): FieldValue
  {
    match f
    case SlugField => Text(p.slug)
    case ExcerptField => Text(p.excerpt)
    case TitleField => Text(p.title)
    case AllowedField => Undefined
    case ContentField => Text(p.content)
    case DateField => Text(p.date)
    case AuthorField => AuthorValue(p.author)
    case OgImageField => OgImageValue(p.ogImage)
  }

  /** Only the requested fields of `p`, each as `p` has it. */
  function Pick(p: Post, fields: seq<Field>): (r: PostRecord)
    ensures r.Keys == set k | 0 <= k < |fields| :: fields[k]
    ensures forall f :: f in r ==> r[f] == FieldOf(p, f)
  {
    map f | f in fields :: FieldOf(p, f)
  }

  /** Picking the title and the body of `p` gives exactly those two, as text. */
  lemma PickTitleContent(p: Post)
    ensures var r := Pick(p, [TitleField, ContentField]);
            && r.Keys == {TitleField, ContentField}
            && r[TitleField] == Text(p.title) && r[ContentField] == Text(p.content)
  {
    var fields := [TitleField, ContentField];
    assert fields[0] == TitleField && fields[1] == ContentField;
  }

  /** `getPostBySlug(slug, fields)`, as a value. */
  function PostBySlug(files: Files, mdDir: string, slug: string, fields: seq<Field>, removeMd: string -> string)
    : (r: Result<PostRecord, LoadError>)
    ensures r.Err? <==> ParseFileToObj(files, mdDir, StripMd(slug), removeMd).Err?
    ensures r.Ok? ==> r.value == Pick(ParseFileToObj(files, mdDir, StripMd(slug), removeMd).value, fields)
  {
    match ParseFileToObj(files, mdDir, StripMd(slug), removeMd)
    case Err(e) => Err(e)
    case Ok(p) => Ok(Pick(p, fields))
  }

  /**
   * `getPostBySlug(slug, fields)`: strips one trailing `.md` from the slug,
   * parses the note, then copies each requested field.
   */
  method GetPostBySlug(files: Files, mdDir: string, slug: string, fields: seq<Field>, removeMd: string -> string)
    returns (r: Result<PostRecord, LoadError>)
    ensures r.Err? <==> ParseFileToObj(files, mdDir, StripMd(slug), removeMd).Err?
    ensures r.Ok? ==> var p := ParseFileToObj(files, mdDir, StripMd(slug), removeMd).value;
                      && r.value.Keys == (set k | 0 <= k < |fields| :: fields[k])
                      && (forall f :: f in r.value ==> r.value[f] == FieldOf(p, f))
  {
    var realSlug := StripMd(slug);
    var data := ParseFileToObj(files, mdDir, realSlug, removeMd);
    if data.Err? {
      return Err(data.error);
    }
    var selectedFields := SelectFields(data.value, fields);
    r := Ok(selectedFields);
  }

  /** The `fields.forEach` of `getPostBySlug`: one field of `post` copied per step. */
  method SelectFields(post: Post, fields: seq<Field>) returns (selectedFields: PostRecord)
    ensures selectedFields.Keys == set k | 0 <= k < |fields| :: fields[k]
    ensures forall f :: f in selectedFields ==> selectedFields[f] == FieldOf(post, f)
  {
    selectedFields := map[];
    for i := 0 to |fields|
      invariant selectedFields.Keys == set k | 0 <= k < i :: fields[k]
      invariant forall f :: f in selectedFields ==> selectedFields[f] == FieldOf(post, f)
    {
      selectedFields := selectedFields[fields[i] := FieldOf(post, fields[i])];
    }
  }

  /** A `.md` on the slug changes nothing: `a` and `a.md` name the same post. */
  lemma SlugSuffixIgnored(files: Files, mdDir: string, slug: string, fields: seq<Field>, removeMd: string -> string)
    requires !EndsWith(slug, ".md")
    ensures PostBySlug(files, mdDir, slug + ".md", fields, removeMd) == PostBySlug(files, mdDir, slug, fields, removeMd)
  {
    StripMdAppended(slug);
  }

  // ---------------------------------------------------------------------
  // getAllPosts: every post, newest first

  /** The date a record is sorted by; every record `getAllPosts` sorts has one. */
  function DateOf(r: PostRecord): string
  {
    if DateField in r && r[DateField].Text? then r[DateField].text else ""
  }

  /** `files.map(slug => getPostBySlug(slug, fields))`: the first failure is thrown. */
  function LoadAll(files: Files, mdDir: string, slugs: seq<string>, fields: seq<Field>, removeMd: string -> string)
    : (r: Result<seq<PostRecord>, LoadError>)
    ensures r.Ok? <==> forall k :: 0 <= k < |slugs| ==> PostBySlug(files, mdDir, slugs[k], fields, removeMd).Ok?
    ensures r.Ok? ==>
      && |r.value| == |slugs|
      && forall k :: 0 <= k < |slugs| ==> r.value[k] == PostBySlug(files, mdDir, slugs[k], fields, removeMd).value
    decreases |slugs|
  {
    if slugs == [] then Ok([])
    else
      match PostBySlug(files, mdDir, slugs[0], fields, removeMd)
      case Err(e) => Err(e)
      case Ok(p) =>
        match LoadAll(files, mdDir, slugs[1..], fields, removeMd)
        case Err(e) => Err(e)
        case Ok(ps) =>
          assert forall k :: 1 <= k < |slugs| ==> slugs[k] == slugs[1..][k - 1];
          Ok([p] + ps)
  }

  /**
   * `x` placed before the first element it is not older than. Of two equal
   * dates, the one inserted later (the earlier one in the input) goes first.
   */
  function Insert(x: PostRecord, s: seq<PostRecord>): (r: seq<PostRecord>)
    decreases |s|
  {
    if s == [] || !Less(DateOf(x), DateOf(s[0])) then [x] + s
    else [s[0]] + Insert(x, s[1..])
  }

  /**
   * `.sort((a, b) => a.date > b.date ? -1 : 1)`. The comparator never
   * returns 0, so the order of equal dates is left to the engine; this is
   * the stable choice.
   */
  function SortByDateDesc(s: seq<PostRecord>): (r: seq<PostRecord>)
    decreases |s|
  {
    if s == [] then [] else Insert(s[0], SortByDateDesc(s[1..]))
  }

  /** Newest first: no record is older than one after it. */
  predicate NewestFirst(s: seq<PostRecord>)
  {
    forall i, j :: 0 <= i < j < |s| ==> !Less(DateOf(s[i]), DateOf(s[j]))
  }

  lemma {:induction false} InsertKeepsElements(x: PostRecord, s: seq<PostRecord>)
    ensures multiset(Insert(x, s)) == multiset(s) + multiset{x}
    decreases |s|
  {
    if s == [] || !Less(DateOf(x), DateOf(s[0])) {
      assert Insert(x, s) == [x] + s;
    } else {
      var t := Insert(x, s[1..]);
      InsertKeepsElements(x, s[1..]);
      assert Insert(x, s) == [s[0]] + t;
      ConsMultiset(s, t, x);
    }
  }

  /** Putting back the head of `s` in front of `t`, which holds the rest of `s` and `x`. */
  lemma ConsMultiset<T>(s: seq<T>, t: seq<T>, x: T)
    requires s != [] && multiset(t) == multiset(s[1..]) + multiset{x}
    ensures multiset([s[0]] + t) == multiset(s) + multiset{x}
  {
    assert s == [s[0]] + s[1..];
  }

  lemma {:induction false} InsertKeepsOrder(x: PostRecord, s: seq<PostRecord>)
    requires NewestFirst(s)
    ensures NewestFirst(Insert(x, s))
    decreases |s|
  {
    if s == [] {
    } else if !Less(DateOf(x), DateOf(s[0])) {
      forall j | 0 <= j < |s| ensures !Less(DateOf(x), DateOf(s[j])) {
        if j > 0 {
          NotLessTransitive(DateOf(x), DateOf(s[0]), DateOf(s[j]));
        }
      }
      ConsKeepsOrder(x, s);
    } else {
      InsertKeepsOrder(x, s[1..]);
      var t := Insert(x, s[1..]);
      InsertKeepsElements(x, s[1..]);
      LessAsymmetric(DateOf(x), DateOf(s[0]));
      forall j | 0 <= j < |t| ensures !Less(DateOf(s[0]), DateOf(t[j])) {
        assert t[j] in multiset(s[1..]) + multiset{x};
        if t[j] != x {
          assert t[j] in s[1..];
          var k :| 0 <= k < |s[1..]| && s[1..][k] == t[j];
          assert s[k + 1] == t[j];
        }
      }
      ConsKeepsOrder(s[0], t);
    }
  }

  /** A record no older than any of a newest-first list can go in front of it. */
  lemma ConsKeepsOrder(h: PostRecord, t: seq<PostRecord>)
    requires NewestFirst(t)
    requires forall j :: 0 <= j < |t| ==> !Less(DateOf(h), DateOf(t[j]))
    ensures NewestFirst([h] + t)
  {
    var r := [h] + t;
    forall i, j | 0 <= i < j < |r| ensures !Less(DateOf(r[i]), DateOf(r[j])) {
      assert r[j] == t[j - 1];
      if i > 0 {
        assert r[i] == t[i - 1];
      }
    }
  }

  /** The sort returns the same records, newest first. */
  lemma {:induction false} SortByDateDescIsSorted(s: seq<PostRecord>)
    ensures multiset(SortByDateDesc(s)) == multiset(s)
    ensures NewestFirst(SortByDateDesc(s))
    decreases |s|
  {
    if s != [] {
      SortByDateDescIsSorted(s[1..]);
      InsertKeepsElements(s[0], SortByDateDesc(s[1..]));
      InsertKeepsOrder(s[0], SortByDateDesc(s[1..]));
      assert s == [s[0]] + s[1..];
    }
  }

  /** In a newest-first list, undated records come after every dated one. */
  lemma UndatedLast(s: seq<PostRecord>, i: nat, j: nat)
    requires NewestFirst(s) && i < j < |s|
    requires DateOf(s[i]) == ""
    ensures DateOf(s[j]) == ""
  {
    EmptyIsLeast(DateOf(s[j]));
  }

  /** The records of `s` dated `d`, in their order. */
  function DatedAs(d: string, s: seq<PostRecord>): (r: seq<PostRecord>)
    ensures |r| <= |s|
    decreases |s|
  {
    if s == [] then []
    else (if DateOf(s[0]) == d then [s[0]] else []) + DatedAs(d, s[1..])
  }

  /** Inserting `x` adds it in front of the records of its date and leaves the other dates alone. */
  lemma {:induction false} InsertKeepsTies(d: string, x: PostRecord, s: seq<PostRecord>)
    ensures DatedAs(d, Insert(x, s)) == (if DateOf(x) == d then [x] else []) + DatedAs(d, s)
    decreases |s|
  {
    if s == [] || !Less(DateOf(x), DateOf(s[0])) {
      assert ([x] + s)[1..] == s;
    } else {
      InsertKeepsTies(d, x, s[1..]);
      assert ([s[0]] + Insert(x, s[1..]))[1..] == Insert(x, s[1..]);
      if DateOf(x) == d && DateOf(s[0]) == d {
        LessIrreflexive(d);
      }
    }
  }

  /**
   * The sort is stable: records of one date keep the order they had,
   * whatever the other records are.
   */
  lemma {:induction false} SortKeepsTies(d: string, s: seq<PostRecord>)
    ensures DatedAs(d, SortByDateDesc(s)) == DatedAs(d, s)
    decreases |s|
  {
    if s != [] {
      SortKeepsTies(d, s[1..]);
      InsertKeepsTies(d, s[0], SortByDateDesc(s[1..]));
    }
  }

  /**
   * `getAllPosts(fields)` over the note paths `slugs` the directory walk
   * found: each requested with `date` added, newest first, and records of
   * one date in the order of their paths.
   */
  function GetAllPosts(files: Files, mdDir: string, slugs: seq<string>, fields: seq<Field>, removeMd: string -> string)
    : (r: Result<seq<PostRecord>, LoadError>)
    ensures r.Ok? <==> forall k :: 0 <= k < |slugs| ==> PostBySlug(files, mdDir, slugs[k], fields + [DateField], removeMd).Ok?
    ensures r.Ok? ==> NewestFirst(r.value)
    ensures r.Ok? ==>
      multiset(r.value) == multiset(seq(|slugs|, k requires 0 <= k < |slugs| => PostBySlug(files, mdDir, slugs[k], fields + [DateField], removeMd).value))
    ensures r.Ok? ==>
      forall d :: DatedAs(d, r.value) == DatedAs(d, seq(|slugs|, k requires 0 <= k < |slugs| => PostBySlug(files, mdDir, slugs[k], fields + [DateField], removeMd).value))
  {
    match LoadAll(files, mdDir, slugs, fields + [DateField], removeMd)
    case Err(e) => Err(e)
    case Ok(ps) =>
      SortByDateDescIsSorted(ps);
      assert forall d :: DatedAs(d, SortByDateDesc(ps)) == DatedAs(d, ps) by {
        forall d ensures DatedAs(d, SortByDateDesc(ps)) == DatedAs(d, ps) {
          SortKeepsTies(d, ps);
        }
      }
      assert ps == seq(|slugs|, k requires 0 <= k < |slugs| => PostBySlug(files, mdDir, slugs[k], fields + [DateField], removeMd).value);
      Ok(SortByDateDesc(ps))
  }

  /** Every record `getAllPosts` returns carries its date and the requested fields. */
  lemma AllPostsCarryDate(files: Files, mdDir: string, slugs: seq<string>, fields: seq<Field>, removeMd: string -> string)
    requires GetAllPosts(files, mdDir, slugs, fields, removeMd).Ok?
    ensures var rs := GetAllPosts(files, mdDir, slugs, fields, removeMd).value;
            forall i :: 0 <= i < |rs| ==> DateField in rs[i] && forall f :: f in fields ==> f in rs[i]
  {
    var rs := GetAllPosts(files, mdDir, slugs, fields, removeMd).value;
    var fs := fields + [DateField];
    var loaded := seq(|slugs|, k requires 0 <= k < |slugs| => PostBySlug(files, mdDir, slugs[k], fs, removeMd).value);
    forall i | 0 <= i < |rs| ensures DateField in rs[i] && forall f :: f in fields ==> f in rs[i] {
      assert rs[i] in multiset(loaded);
      var k :| 0 <= k < |loaded| && loaded[k] == rs[i];
      assert fs[|fields|] == DateField;
      assert forall f :: f in fields ==> f in fs;
    }
  }
}
