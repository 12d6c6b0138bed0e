/**
 * The parts of `markdownToHtml` that work on the HTML tree: the note cards
 * (`createNoteNode`), the card of each outgoing link (`linkNodeMapping`),
 * the rewrite of an anchor into an anchor followed by the linked note's card
 * (`rewriteLinkNodes`), and the unescaping of backslashed symbols inside
 * math nodes. Tree nodes are objects: the rewrite changes them in place and
 * one card object may hang under several anchors.
 */
module Render {
  import opened Wrappers
  import opened JsStrings
  import opened LinkRegex
  import opened Slugs
  import opened Excerpt
  import opened Posts
  import opened LinkGraph

  // ---------------------------------------------------------------------
  // HTML tree nodes

  /** `node.type` */
  datatype NodeKind = ElementNode | TextNode | RootNode

  /**
   * A node of the HTML syntax tree. `properties` holds the attributes the
   * core reads and writes (`href`, `className`); a text node keeps its text
   * in `value`.
   */
  class HastNode {
    var kind: NodeKind
    var tagName: string
    var properties: map<string, string>
    var children: seq<HastNode>
    var value: string
    /** The nodes below this one, where the model needs them. */
    ghost var Repr: set<HastNode>

    constructor (kind: NodeKind, tagName: string, properties: map<string, string>, children: seq<HastNode>, value: string)
      ensures this.kind == kind && this.tagName == tagName && this.properties == properties
      ensures this.children == children && this.value == value
    {
      this.kind := kind;
      this.tagName := tagName;
      this.properties := properties;
      this.children := children;
      this.value := value;
      this.Repr := {};
    }
  }

  // ---------------------------------------------------------------------
  // createNoteNode

  /** The classes `NotePreview` puts on the card and on its two lines. */
  const PreviewClass: string := "note-preview block col-span-2 rounded shadow-inner p-5 bg-gray-50 cursor-pointer text-lg hover:bg-gray-100 hover:border-transparent mb-3"
  const TitleClass: string := "block font-bold leading-snug tracking-tight truncate mb-1"
  const ExcerptClass: string := "block font-normal text-gray-600 whitespace-pre-line max-h-[150px] truncate"

  /** A `span` of class `cls` holding the text `text`; an empty text renders no text node. */
  ghost predicate IsTextSpan(span: HastNode, cls: string, text: string)
    reads span, span.children
  {
    && span.kind == ElementNode && span.tagName == "span"
    && span.properties == map["className" := cls]
    && if text == "" then span.children == []
       else
         && |span.children| == 1
         && span.children[0].kind == TextNode
         && span.children[0].value == text
         && span.children[0].children == []
  }

  /** `card` is the preview of a note titled `title` with excerpt `excerpt`, and nothing else. */
  ghost predicate IsNoteCard(card: HastNode, title: string, excerpt: string)
    reads card, card.Repr
  {
    && card.kind == ElementNode && card.tagName == "span"
    && card.properties == map["className" := PreviewClass]
    && |card.children| == 2
    && card.children[0] in card.Repr && card.children[1] in card.Repr
    && (forall c :: c in card.children[0].children ==> c in card.Repr)
    && (forall c :: c in card.children[1].children ==> c in card.Repr)
    && IsTextSpan(card.children[0], TitleClass, title)
    && IsTextSpan(card.children[1], ExcerptClass, excerpt)
  }

  /** A card holds no anchor, so no transclusion happens inside a card. */
  lemma CardHasNoAnchor(card: HastNode, title: string, excerpt: string)
    requires IsNoteCard(card, title, excerpt)
    ensures card.tagName != "a"
    ensures forall c :: c in card.children ==>
      && c.kind == ElementNode && c.tagName == "span"
      && forall d :: d in c.children ==> d.kind == TextNode
  {
  }

  /** A line of the card: a `span` with the text, or with no child when the text is empty. */
  method TextSpan(cls: string, text: string) returns (span: HastNode)
    ensures fresh(span) && forall c :: c in span.children ==> fresh(c)
    ensures IsTextSpan(span, cls, text)
  {
    var kids: seq<HastNode> := [];
    if text != "" {
      var t := new HastNode(TextNode, "", map[], [], text);
      kids := [t];
    }
    span := new HastNode(ElementNode, "span", map["className" := cls], kids, "");
  }

  /**
   * `createNoteNode(title, content)`: the `NotePreview` markup of the title
   * and of the excerpt of `content`, as a fresh tree. `excerptOf` is
   * `getMDExcerpt` at its default length, which `BuildLinkNodeMapping`
   * passes in.
   */
  method CreateNoteNode(title: string, content: string, excerptOf: string -> string) returns (card: HastNode)
    ensures fresh(card)
    ensures fresh(card.Repr)
    ensures IsNoteCard(card, title, excerptOf(content))
  {
    var mdContentStr := excerptOf(content);
    var titleSpan := TextSpan(TitleClass, title);
    var contentSpan := TextSpan(ExcerptClass, mdContentStr);
    card := new HastNode(ElementNode, "span", map["className" := PreviewClass], [titleSpan, contentSpan], "");
    card.Repr := {titleSpan, contentSpan} + (set c | c in titleSpan.children) + (set c | c in contentSpan.children);
  }

  // ---------------------------------------------------------------------
  // linkNodeMapping

  /** Why building the cards throws. */
  datatype RenderError =
    | NotIterable(slug: string)    // `getLinksMapping()[currSlug]` is not an own key
    | PostFailed(error: LoadError) // `getPostBySlug` threw
    | ReadOnlyCard                 // `linkNodeMapping["size"] = node`

  /** The slugs `markdownToHtml` makes cards for: the links stored for `currSlug`. */
  function CardSlugs(m: LinksMap, currSlug: string): (r: Option<seq<string>>)
    ensures r.Some? <==> currSlug in m.props.values
    ensures r.Some? ==> r.value == GetOutgoingLinks(m, currSlug)
  {
    if currSlug in m.props.values then Some(m.props.values[currSlug]) else None
  }

  /**
   * The title and body of the note `l`: what
   * `getPostBySlug(l, ["title", "content"])` returns.
   */
  function CardSource(files: Files, mdDir: string, l: string, removeMd: string -> string): (r: Result<(string, string), LoadError>)
    ensures var rec := PostBySlug(files, mdDir, l, [TitleField, ContentField], removeMd);
            && (r.Err? <==> rec.Err?)
            && (r.Err? ==> r.error == rec.error)
            && (r.Ok? ==> && rec.value.Keys == {TitleField, ContentField}
                          && rec.value[TitleField] == Text(r.value.0)
                          && rec.value[ContentField] == Text(r.value.1))
  {
    var fields := [TitleField, ContentField];
    match PostBySlug(files, mdDir, l, fields, removeMd)
    case Err(e) => Err(e)
    case Ok(rec) =>
      PickTitleContent(ParseFileToObj(files, mdDir, StripMd(l), removeMd).value);
      Ok((rec[TitleField].text, rec[ContentField].text))
  }

  /** The two lines of the card of the note `l`: its title and the excerpt of its body. */
  ghost function CardText(files: Files, mdDir: string, removeMd: string -> string, l: string): Result<(string, string), LoadError>
  {
    match CardSource(files, mdDir, l, removeMd)
    case Err(e) => Err(e)
    case Ok((title, content)) => Ok((title, GetMDExcerpt(content, DefaultExcerptLength, removeMd)))
  }

  /** `card` is the card `createNoteNode` makes for the note `l`. */
  ghost predicate IsCardOf(files: Files, mdDir: string, removeMd: string -> string, l: string, card: HastNode)
    reads card, card.Repr
  {
    && CardText(files, mdDir, removeMd, l).Ok?
    && IsNoteCard(card, CardText(files, mdDir, removeMd, l).value.0, CardText(files, mdDir, removeMd, l).value.1)
  }

  /**
   * How the round for the link `l` throws, if it does: reading the note
   * fails, or the note loads and storing its card under `size` throws.
   */
  function CardFailure(post: string -> Result<(string, string), LoadError>, l: string): Option<RenderError>
  {
    if post(l).Err? then Some(PostFailed(post(l).error))
    else if l == ReadOnlyKey then Some(ReadOnlyCard)
    else None
  }

  /** The rounds before `k` in `links` go through, and the one at `k` throws `e`. */
  ghost predicate FirstFailure(links: seq<string>, post: string -> Result<(string, string), LoadError>, k: int, e: RenderError)
  {
    && 0 <= k < |links| && CardFailure(post, links[k]) == Some(e)
    && forall j :: 0 <= j < k ==> CardFailure(post, links[j]).None?
  }

  /** Every card in `cards` is the card of its note's title and excerpt. */
  ghost predicate CardsOf(cards: map<string, HastNode>, post: string -> Result<(string, string), LoadError>, excerptOf: string -> string)
    reads cards.Values, set l, o | l in cards && o in cards[l].Repr :: o
  {
    forall l :: l in cards ==> post(l).Ok? && IsNoteCard(cards[l], post(l).value.0, excerptOf(post(l).value.1))
  }

  /** Adding the card of a loaded note keeps every card right. */
  lemma CardsOfAdd(cards: map<string, HastNode>, post: string -> Result<(string, string), LoadError>, excerptOf: string -> string, l: string, node: HastNode)
    requires CardsOf(cards, post, excerptOf)
    requires post(l).Ok? && IsNoteCard(node, post(l).value.0, excerptOf(post(l).value.1))
    ensures CardsOf(cards[l := node], post, excerptOf)
  {
  }

  /** After storing the card of `links[i]`, the keys are the links up to `i`. */
  lemma CardKeysStep(links: seq<string>, i: nat, cards: map<string, HastNode>, cards': map<string, HastNode>, node: HastNode)
    requires i < |links| && forall l :: l in cards <==> l in links[..i]
    requires cards' == cards[links[i] := node]
    ensures forall l :: l in cards' <==> l in links[..i + 1]
  {
    assert links[..i + 1] == links[..i] + [links[i]];
  }

  /**
   * The `for (const l of links)` loop of `markdownToHtml`, with
   * `getPostBySlug(l, ["title", "content"])` as `post`: one new card per
   * linked note, stored under its slug; a repeated link gets a new card that
   * replaces the old one. The first note that cannot be read stops the loop,
   * and so does storing a card under `size`.
   */
  method BuildCards(links: seq<string>, post: string -> Result<(string, string), LoadError>, excerptOf: string -> string)
    returns (r: Result<map<string, HastNode>, RenderError>)
    ensures r.Err? <==> exists k :: 0 <= k < |links| && CardFailure(post, links[k]).Some?
    ensures r.Err? ==> exists k :: FirstFailure(links, post, k, r.error)
    ensures r.Ok? ==>
      && (forall l :: l in r.value <==> l in links)
      && forall l :: l in r.value ==>
           && post(l).Ok?
           && IsNoteCard(r.value[l], post(l).value.0, excerptOf(post(l).value.1))
  {
    var linkNodeMapping: map<string, HastNode> := map[];
    for i := 0 to |links|
      invariant forall l :: l in linkNodeMapping <==> l in links[..i]
      invariant forall k :: 0 <= k < i ==> CardFailure(post, links[k]).None?
      invariant CardsOf(linkNodeMapping, post, excerptOf)
    {
      var l := links[i];
      var p := post(l);
      if p.Err? {
        assert FirstFailure(links, post, i, PostFailed(p.error));
        return Err(PostFailed(p.error));
      }
      var node := CreateNoteNode(p.value.0, p.value.1, excerptOf);
      if l == ReadOnlyKey {
        assert FirstFailure(links, post, i, ReadOnlyCard);
        return Err(ReadOnlyCard);
      }
      CardsOfAdd(linkNodeMapping, post, excerptOf, l, node);
      CardKeysStep(links, i, linkNodeMapping, linkNodeMapping[l := node], node);
      linkNodeMapping := linkNodeMapping[l := node];
    }
    assert links[..|links|] == links;
    r := Ok(linkNodeMapping);
  }

  /**
   * The cards of `markdownToHtml(markdown, currSlug)`: reading the links of
   * a note that is not an own key of the mapping throws, and so do reading
   * a linked note and storing a card under `size`.
   */
  method BuildLinkNodeMapping(m: LinksMap, currSlug: string, files: Files, mdDir: string, removeMd: string -> string)
    returns (r: Result<map<string, HastNode>, RenderError>)
    ensures r.Err? <==>
      || currSlug !in m.props.values
      || exists k :: 0 <= k < |m.props.values[currSlug]| &&
           (CardSource(files, mdDir, m.props.values[currSlug][k], removeMd).Err? || m.props.values[currSlug][k] == ReadOnlyKey)
    ensures r.Ok? ==>
      && (forall l :: l in r.value <==> l in m.props.values[currSlug])
      && forall l :: l in r.value ==> IsCardOf(files, mdDir, removeMd, l, r.value[l])
  {
    var links := CardSlugs(m, currSlug);
    if links.None? {
      return Err(NotIterable(currSlug));
    }
    var cards := BuildCards(links.value, l => CardSource(files, mdDir, l, removeMd), c => GetMDExcerpt(c, DefaultExcerptLength, removeMd));
    r := cards;
  }

  // ---------------------------------------------------------------------
  // Looking a card up

  /**
   * The names a `Map` instance inherits from `Map.prototype` and
   * `Object.prototype` whose value is truthy: the methods and `__proto__`.
   * (`size` is inherited too, but reads `0` on a map with no entries.)
   */
  const TruthyInherited: set<string> := {
    "clear", "delete", "entries", "forEach", "get", "has", "keys", "set", "values",
    "constructor", "hasOwnProperty", "isPrototypeOf", "propertyIsEnumerable",
    "toLocaleString", "toString", "valueOf", "__proto__",
    "__defineGetter__", "__defineSetter__", "__lookupGetter__", "__lookupSetter__"}

  /** What `linkNodeMapping[slug]` reads. */
  datatype Lookup =
    | OwnCard(card: HastNode)      // a card stored under `slug`
    | InheritedMember(name: string) // a method or prototype object: truthy, not a card
    | NoValue                      // `undefined` or `0`: falsy

  /** `linkNodeMapping[slug]`, as written: a property read on a `Map` object. */
  function CardLookupAsWritten(cards: map<string, HastNode>, slug: string): (r: Lookup)
    ensures slug in cards ==> r == OwnCard(cards[slug])
    ensures slug !in cards && slug in TruthyInherited ==> r == InheritedMember(slug)
    ensures slug !in cards && slug !in TruthyInherited ==> r == NoValue
  {
    if slug in cards then OwnCard(cards[slug])
    else if slug in TruthyInherited then InheritedMember(slug)
    else NoValue
  }

  /**
   * As written, a link to `constructor` from a note that links to no note of
   * that name still finds a truthy value, so the anchor would be rewritten
   * with a function in place of a card.
   */
  lemma InheritedNameFindsNonCard(cards: map<string, HastNode>)
    requires "constructor" !in cards
    ensures CardLookupAsWritten(cards, "constructor") == InheritedMember("constructor")
  {
  }

  /** `linkNodeMapping[slug]`, reading only the cards stored: a card exactly for the linked notes. */
  function CardLookup(cards: map<string, HastNode>, slug: string): (r: Option<HastNode>)
    ensures r.Some? <==> slug in cards
    ensures r.Some? ==> r.value == cards[slug]
  {
    if slug in cards then Some(cards[slug]) else None
  }

  /** Off the inherited names, the two lookups agree. */
  lemma LookupsAgreeOffPrototype(cards: map<string, HastNode>, slug: string)
    requires slug !in TruthyInherited
    ensures CardLookupAsWritten(cards, slug).OwnCard? <==> CardLookup(cards, slug).Some?
    ensures CardLookup(cards, slug).Some? ==> CardLookupAsWritten(cards, slug).card == CardLookup(cards, slug).value
    ensures CardLookupAsWritten(cards, slug).InheritedMember? == false
  {
  }

  // ---------------------------------------------------------------------
  // rewriteLinkNodes

  /** What `rewriteLinkNodes` does to an anchor with properties `props`. */
  datatype Decision =
    | NotAnAnchor
    | Throws            // no `href`, or `decodeURI` rejects it
    | NoCard            // the link resolves to a note with no card
    | Transclude(card: HastNode)

  /** The slug an anchor with properties `props` links to, if it resolves. */
  function AnchorSlug(currSlug: string, props: map<string, string>): Option<string>
  {
    if "href" in props then GetSlugFromHref(currSlug, props["href"]) else None
  }

  /** The decision for a node of kind `kind` and tag `tag`. */
  function Decide(cards: map<string, HastNode>, currSlug: string, kind: NodeKind, tag: string, props: map<string, string>): (d: Decision)
    ensures d.Transclude? <==>
      && kind == ElementNode && tag == "a"
      && AnchorSlug(currSlug, props).Some?
      && AnchorSlug(currSlug, props).value in cards
    ensures d.Transclude? ==> d.card == cards[AnchorSlug(currSlug, props).value]
    ensures d == NotAnAnchor <==> !(kind == ElementNode && tag == "a")
    ensures d.Throws? <==> kind == ElementNode && tag == "a" && AnchorSlug(currSlug, props).None?
  {
    if !(kind == ElementNode && tag == "a") then NotAnAnchor
    else
      match AnchorSlug(currSlug, props)
      case None => Throws
      case Some(slug) =>
        match CardLookup(cards, slug)
        case None => NoCard
        case Some(card) => Transclude(card)
  }

  /**
   * With the cards built for `currSlug`, an anchor is transcluded exactly
   * when it resolves to one of the notes `currSlug` links to.
   */
  lemma TranscludesExactlyLinkedNotes(cards: map<string, HastNode>, links: seq<string>, currSlug: string, props: map<string, string>)
    requires forall l :: l in cards <==> l in links
    ensures Decide(cards, currSlug, ElementNode, "a", props).Transclude?
            <==> AnchorSlug(currSlug, props).Some? && AnchorSlug(currSlug, props).value in links
  {
  }

  /** How a rewrite ended. */
  datatype Outcome = Rewritten | Unchanged | Threw

  /**
   * `rewriteLinkNodes(node, linkNodeMapping, currSlug)`: an anchor whose
   * link has a card becomes a `span` of class `internal-link-container`
   * holding a copy of the anchor, re-classed `internal-link`, then the card.
   * Anything else is left as it is. The card is found with the corrected
   * `CardLookup`, so an `href` that resolves to an inherited name such as
   * `constructor` leaves the anchor unchanged, where the code as written
   * finds the inherited member and rewrites the anchor around it.
   */
  method RewriteLinkNodes(node: HastNode, cards: map<string, HastNode>, currSlug: string) returns (outcome: Outcome)
    modifies node
    ensures var d := Decide(cards, currSlug, old(node.kind), old(node.tagName), old(node.properties));
            && (outcome == Rewritten <==> d.Transclude?)
            && (outcome == Threw <==> d.Throws?)
    ensures outcome != Rewritten ==> unchanged(node)
    ensures outcome == Rewritten ==>
      var d := Decide(cards, currSlug, old(node.kind), old(node.tagName), old(node.properties));
      && node.kind == old(node.kind) && node.value == old(node.value)
      && node.tagName == "span"
      && node.properties == map["className" := "internal-link-container"]
      && |node.children| == 2
      && node.children[1] == d.card
      && fresh(node.children[0])
      && node.children[0].kind == old(node.kind)
      && node.children[0].tagName == "a"
      && node.children[0].properties == old(node.properties)["className" := "internal-link"]
      && node.children[0].children == old(node.children)
      && node.children[0].value == old(node.value)
  {
    outcome := Unchanged;
    if node.kind == ElementNode && node.tagName == "a" {
      if "href" !in node.properties {
        return Threw;
      }
      var slug := GetSlugFromHref(currSlug, node.properties["href"]);
      if slug.None? {
        return Threw;
      }
      var noteCardNode := CardLookup(cards, slug.value);
      if noteCardNode.Some? {
        var anchorNode := new HastNode(node.kind, node.tagName, node.properties["className" := "internal-link"], node.children, node.value);
        node.tagName := "span";
        node.properties := map["className" := "internal-link-container"];
        node.children := [anchorNode, noteCardNode.value];
        outcome := Rewritten;
      }
    }
  }

  // ---------------------------------------------------------------------
  // Math nodes

  /** The piece holding the backslash at the start of each of `spans`. */
  function LeadingChars(spans: seq<Span>): (inner: seq<Span>)
    requires forall k :: 0 <= k < |spans| ==> spans[k].start < spans[k].end
    ensures |inner| == |spans|
    ensures forall k :: 0 <= k < |spans| ==> inner[k] == Span(spans[k].start, spans[k].start + 1)
  {
    seq(|spans|, k requires 0 <= k < |spans| => Span(spans[k].start, spans[k].start + 1))
  }

  /** A match of a delimiter pattern starts with the first character of its prefix. */
  lemma DelimiterMatchStart(p: Pattern, s: string, sp: Span)
    requires p.Delimiter? && p.prefix != []
    requires MatchEnd(p, s, sp.start) == Some(sp.end)
    ensures sp.start < sp.end <= |s| && s[sp.start] == p.prefix[0]
  {
  }

  /** Every match of a delimiter pattern starting with a backslash starts at a backslash. */
  lemma MatchesStartAtBackslash(p: Pattern, s: string)
    requires p.Delimiter? && p.prefix != [] && p.prefix[0] == '\\'
    ensures forall k :: 0 <= k < |Scan(p, s, 0)| ==>
      Scan(p, s, 0)[k].start < Scan(p, s, 0)[k].end && s[Scan(p, s, 0)[k].start] == '\\'
  {
    var spans := Scan(p, s, 0);
    forall k | 0 <= k < |spans| ensures spans[k].start < spans[k].end && s[spans[k].start] == '\\' {
      DelimiterMatchStart(p, s, spans[k]);
    }
  }

  /** The text of each of `spans` without its first character: `subs.replace("\\", "")` on a match that starts with the backslash. */
  function WithoutFirst(s: string, spans: seq<Span>): (reps: seq<string>)
    requires forall k :: 0 <= k < |spans| ==> spans[k].start < spans[k].end <= |s|
    ensures |reps| == |spans|
    ensures forall k :: 0 <= k < |spans| ==> reps[k] == s[spans[k].start + 1..spans[k].end]
  {
    seq(|spans|, k requires 0 <= k < |spans| => s[spans[k].start + 1..spans[k].end])
  }

  /** The first characters of the matches of `p` are ordered spans of `s`. */
  lemma LeadingCharsOrdered(p: Pattern, s: string)
    requires p.Delimiter? && p.prefix != [] && p.prefix[0] == '\\'
    ensures var spans := Scan(p, s, 0);
            && (forall k :: 0 <= k < |spans| ==> spans[k].start < spans[k].end && s[spans[k].start] == '\\')
            && Ordered(LeadingChars(spans), 0, |s|)
  {
    var spans := Scan(p, s, 0);
    MatchesStartAtBackslash(p, s);
    InnerOrdered(0, |s|, spans, LeadingChars(spans));
  }

  /** `s` with the first character, a backslash, of each match of `p` deleted. */
  function DeleteMatchStarts(p: Pattern, s: string): (r: string)
    requires p.Delimiter? && p.prefix != [] && p.prefix[0] == '\\'
  {
    LeadingCharsOrdered(p, s);
    DeleteSpans(s, 0, LeadingChars(Scan(p, s, 0)))
  }

  /**
   * `s.replaceAll(p, subs => subs.replace("\\", ""))` for a delimiter
   * pattern `p` that starts with a backslash: each match loses its first
   * character, the backslash, and nothing else changes.
   */
  function DropLeadingBackslash(p: Pattern, s: string): (r: string)
    requires p.Delimiter? && p.prefix != [] && p.prefix[0] == '\\'
    ensures r == DeleteMatchStarts(p, s)
  {
    var spans := Scan(p, s, 0);
    MatchesStartAtBackslash(p, s);
    SpliceDeletesInner(s, 0, spans, LeadingChars(spans), WithoutFirst(s, spans));
    Splice(s, 0, spans, WithoutFirst(s, spans))
  }

  /** Without a backslash there is no delimiter match, and nothing is dropped. */
  lemma NoBackslashNoDrop(p: Pattern, s: string)
    requires p.Delimiter? && p.prefix != [] && p.prefix[0] == '\\'
    requires '\\' !in s
    ensures DropLeadingBackslash(p, s) == s
  {
    var spans := Scan(p, s, 0);
    if spans != [] {
      DelimiterMatchStart(p, s, spans[0]);
      assert false;
    }
    NothingDeleted(s);
  }

  /** `\_`, `\*`, `\>`, `\<` become the bare symbol, in that order. */
  function UnescapeSymbols(v: string): (r: string)
    ensures |r| <= |v|
    ensures '\\' !in v ==> r == v
  {
    var a := ReplaceAll(v, "\\_", "_");
    var b := ReplaceAll(a, "\\*", "*");
    var c := ReplaceAll(b, "\\>", ">");
    var d := ReplaceAll(c, "\\<", "<");
    ReplaceAllShrinks(v, "\\_", "_");
    ReplaceAllShrinks(a, "\\*", "*");
    ReplaceAllShrinks(b, "\\>", ">");
    ReplaceAllShrinks(c, "\\<", "<");
    assert '\\' !in v ==> d == v by {
      if '\\' !in v {
        ReplaceAllAbsent(v, "\\_", "_");
        ReplaceAllAbsent(a, "\\*", "*");
        ReplaceAllAbsent(b, "\\>", ">");
        ReplaceAllAbsent(c, "\\<", "<");
      }
    }
    d
  }

  /** The backslash of each `\begin…{…}`, then of each `\end…{…}`, is dropped. */
  function UnescapeDelimiters(d: string): (r: string)
    ensures r == DeleteMatchStarts(EndPattern, DeleteMatchStarts(BeginPattern, d))
    ensures |r| <= |d|
    ensures '\\' !in d ==> r == d
  {
    var e := DropLeadingBackslash(BeginPattern, d);
    var f := DropLeadingBackslash(EndPattern, e);
    assert '\\' !in d ==> f == d by {
      if '\\' !in d {
        NoBackslashNoDrop(BeginPattern, d);
        NoBackslashNoDrop(EndPattern, e);
      }
    }
    f
  }

  /**
   * The unescape pass on the text of one child of a math node: it never
   * lengthens the text, and a text with no backslash is left as it is.
   */
  function UnescapeMath(v: string): (r: string)
    ensures r == DeleteMatchStarts(EndPattern, DeleteMatchStarts(BeginPattern, UnescapeSymbols(v)))
    ensures |r| <= |v|
    ensures '\\' !in v ==> r == v
  {
    UnescapeDelimiters(UnescapeSymbols(v))
  }

  /** An escaped underscore, star or angle bracket loses its backslash. */
  lemma UnescapesSymbol(x: string, y: string)
    requires '\\' !in x && '\\' !in y
    ensures ReplaceAll(x + "\\_" + y, "\\_", "_") == x + "_" + y
  {
    var t := "\\_" + y;
    ReplaceAllPrefix(x, t, "\\_", "_");
    ReplaceAllAtStart("\\_", "_", y);
    ReplaceAllAbsent(y, "\\_", "_");
    calc {
      ReplaceAll(x + "\\_" + y, "\\_", "_");
      { assert x + "\\_" + y == x + t; }
      ReplaceAll(x + t, "\\_", "_");
      x + ReplaceAll(t, "\\_", "_");
      x + ("_" + y);
      { assert x + ("_" + y) == x + "_" + y; }
      x + "_" + y;
    }
  }

  /** The child at `f` is the first that is not a text node. */
  ghost predicate FirstNonText(children: seq<HastNode>, f: int)
    requires 0 <= f < |children|
    reads children
  {
    children[f].kind != TextNode && forall k :: 0 <= k < f ==> children[k].kind == TextNode
  }

  /**
   * `node.children.forEach(child => child.value = f(child.value))`: each
   * child's text is rewritten in order. A child with no text (an element)
   * makes the string method called on it throw: the children before it are
   * already rewritten, it and the rest are not.
   */
  method RewriteChildTexts(node: HastNode, f: string -> string) returns (ok: bool)
    requires forall i, j :: 0 <= i < j < |node.children| ==> node.children[i] != node.children[j]
    modifies node.children`value
    ensures ok <==> forall k :: 0 <= k < |node.children| ==> node.children[k].kind == TextNode
    ensures ok ==> forall k :: 0 <= k < |node.children| ==> node.children[k].value == f(old(node.children[k].value))
    ensures !ok ==> exists n ::
      && 0 <= n < |node.children| && FirstNonText(node.children, n)
      && (forall k :: 0 <= k < n ==> node.children[k].value == f(old(node.children[k].value)))
      && (forall k :: n <= k < |node.children| ==> node.children[k].value == old(node.children[k].value))
  {
    var kids := node.children;
    for i := 0 to |kids|
      invariant forall k :: 0 <= k < i ==> kids[k].kind == TextNode
      invariant forall k :: 0 <= k < i ==> kids[k].value == f(old(kids[k].value))
      invariant forall k :: i <= k < |kids| ==> kids[k].value == old(kids[k].value)
    {
      var child := kids[i];
      if child.kind != TextNode {
        assert node.children == kids && node.children[i].kind != TextNode;
        assert FirstNonText(kids, i);
        return false;
      }
      child.value := f(child.value);
    }
    ok := true;
  }

  /** The children of a selected math node that is not an anchor go through the unescape pass. */
  method UnescapeMathChildren(node: HastNode) returns (ok: bool)
    requires forall i, j :: 0 <= i < j < |node.children| ==> node.children[i] != node.children[j]
    modifies node.children`value
    ensures ok <==> forall k :: 0 <= k < |node.children| ==> node.children[k].kind == TextNode
    ensures ok ==> forall k :: 0 <= k < |node.children| ==> node.children[k].value == UnescapeMath(old(node.children[k].value))
    ensures !ok ==> exists n ::
      && 0 <= n < |node.children| && FirstNonText(node.children, n)
      && (forall k :: 0 <= k < n ==> node.children[k].value == UnescapeMath(old(node.children[k].value)))
      && (forall k :: n <= k < |node.children| ==> node.children[k].value == old(node.children[k].value))
  {
    ok := RewriteChildTexts(node, UnescapeMath);
  }

  /**
   * The `rewrite` callback, for a node the selector
   * `a, span.math-inline, div.math-display` picked: an anchor goes to
   * `rewriteLinkNodes`, any other element through the unescape pass. So an
   * anchor's children are never unescaped.
   */
  method RewriteSelected(node: HastNode, cards: map<string, HastNode>, currSlug: string) returns (outcome: Outcome)
    requires forall i, j :: 0 <= i < j < |node.children| ==> node.children[i] != node.children[j]
    modifies node, node.children`value
    ensures old(node.kind) == ElementNode && old(node.tagName) == "a" ==>
      var d := Decide(cards, currSlug, old(node.kind), old(node.tagName), old(node.properties));
      && (forall c :: c in old(node.children) && c != node ==> c.value == old(c.value))
      && (outcome == Rewritten <==> d.Transclude?)
      && (outcome == Threw <==> d.Throws?)
      && (outcome != Rewritten ==> unchanged(node))
      && (outcome == Rewritten ==>
            && node.kind == old(node.kind) && node.value == old(node.value)
            && node.tagName == "span"
            && node.properties == map["className" := "internal-link-container"]
            && |node.children| == 2
            && node.children[1] == d.card
            && fresh(node.children[0])
            && node.children[0].kind == old(node.kind)
            && node.children[0].tagName == "a"
            && node.children[0].properties == old(node.properties)["className" := "internal-link"]
            && node.children[0].children == old(node.children)
            && node.children[0].value == old(node.value))
    ensures old(node.kind) == ElementNode && old(node.tagName) != "a" ==>
      && node.kind == old(node.kind) && node.tagName == old(node.tagName)
      && node.properties == old(node.properties) && node.value == old(node.value)
      && node.children == old(node.children)
      && outcome != Rewritten
      && (outcome == Unchanged <==> forall k :: 0 <= k < |node.children| ==> node.children[k].kind == TextNode)
      && (outcome == Unchanged ==> forall k :: 0 <= k < |node.children| ==>
            node.children[k].value == UnescapeMath(old(node.children[k].value)))
      && (outcome == Threw ==> exists n ::
            && 0 <= n < |node.children| && FirstNonText(node.children, n)
            && (forall k :: 0 <= k < n ==> node.children[k].value == UnescapeMath(old(node.children[k].value)))
            && (forall k :: n <= k < |node.children| ==> node.children[k].value == old(node.children[k].value)))
    ensures old(node.kind) != ElementNode ==> outcome == Unchanged && unchanged(node) && unchanged(node.children)
  {
    outcome := Unchanged;
    if node.kind == ElementNode {
      if node.tagName == "a" {
        outcome := RewriteLinkNodes(node, cards, currSlug);
      } else {
        var ok := UnescapeMathChildren(node);
        if !ok {
          outcome := Threw;
        }
      }
    }
  }
}
