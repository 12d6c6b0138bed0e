/**
 * The link graph: which notes each note links to (`getLinksMapping`), who
 * links to a note (`getBacklinks`) and where a note links to
 * (`getOutgoingLinks`).
 *
 * `getLinksMapping` returns a `Map`, but it stores each note's links with
 * `linksMapping[slug] = ...`, which sets a property of the object and
 * leaves the map's entries empty. A `LinksMap` keeps both: `entries` (what
 * `.get` reads) and `props` (what indexing and `Object.keys` read).
 */
module LinkGraph {
  import opened Wrappers
  import opened JsStrings
  import opened NodePath
  import opened Slugs
  import opened LinkRegex

  // ---------------------------------------------------------------------
  // Insertion-ordered dictionaries

  /** A `Map`, or an object's own string-keyed properties: keys in insertion order. */
  datatype OrderedMap<V> = OrderedMap(keys: seq<string>, values: map<string, V>)

  ghost predicate Valid<V>(m: OrderedMap<V>)
  {
    && (forall i, j :: 0 <= i < j < |m.keys| ==> m.keys[i] != m.keys[j])
    && (forall k :: k in m.values <==> k in m.keys)
  }

  /** `m.set(k, v)`: a new key goes last, an old key keeps its place. */
  function Put<V>(m: OrderedMap<V>, k: string, v: V): (r: OrderedMap<V>)
    ensures r.values == m.values[k := v]
    ensures k in m.values ==> r.keys == m.keys
    ensures k !in m.values ==> r.keys == m.keys + [k]
    ensures Valid(m) ==> Valid(r)
  {
    if k in m.values then OrderedMap(m.keys, m.values[k := v])
    else OrderedMap(m.keys + [k], m.values[k := v])
  }

  /** The keys of `entries`, repeats merged. */
  function EntryKeys<V>(entries: seq<(string, V)>): (r: set<string>)
    ensures forall i :: 0 <= i < |entries| ==> entries[i].0 in r
    decreases |entries|
  {
    if entries == [] then {}
    else
      var n := |entries|;
      assert forall i :: 0 <= i < n - 1 ==> entries[..n - 1][i] == entries[i];
      EntryKeys(entries[..n - 1]) + {entries[n - 1].0}
  }

  /** Every key of `new Map(entries)` is the key of some entry. */
  lemma {:induction false} EntryKeysCome(entries: seq<(string, string)>, k: string)
    requires k in EntryKeys(entries)
    ensures exists i :: 0 <= i < |entries| && entries[i].0 == k
    decreases |entries|
  {
    var n := |entries|;
    if k != entries[n - 1].0 {
      EntryKeysCome(entries[..n - 1], k);
      var i :| 0 <= i < n - 1 && entries[..n - 1][i].0 == k;
      assert entries[i].0 == k;
    }
  }

  /** `new Map(entries)`: each entry set in turn, so a repeated key keeps its last value. */
  function FromEntries<V>(entries: seq<(string, V)>): (r: OrderedMap<V>)
    ensures Valid(r)
    ensures r.values.Keys == EntryKeys(entries)
    ensures |entries| > 0 ==> r.values[entries[|entries| - 1].0] == entries[|entries| - 1].1
    decreases |entries|
  {
    if entries == [] then OrderedMap([], map[])
    else
      var n := |entries|;
      Put(FromEntries(entries[..n - 1]), entries[n - 1].0, entries[n - 1].1)
  }

  // ---------------------------------------------------------------------
  // One note's links

  /** What `getSlugFromHref(slug, t)` gives for each target `t`, in order. */
  function Resolutions(slug: string, targets: seq<string>): (outs: seq<Option<string>>)
    ensures |outs| == |targets|
    ensures forall k :: 0 <= k < |targets| ==> outs[k] == GetSlugFromHref(slug, targets[k])
  {
    seq(|targets|, k requires 0 <= k < |targets| => GetSlugFromHref(slug, targets[k]))
  }

  /** The resolution of the target at `j`. */
  lemma ResolutionAt(slug: string, targets: seq<string>, j: int)
    requires 0 <= j < |targets|
    ensures Resolutions(slug, targets)[j] == GetSlugFromHref(slug, targets[j])
  {
  }

  /**
   * The links a note keeps from the resolutions `outs` of its targets: each
   * resolved slug that names a known note, in order and with repeats.
   * `None` is the `URIError` the first bad target throws.
   */
  function FilterKnown(outs: seq<Option<string>>, known: set<string>): (r: Option<seq<string>>)
    ensures r.Some? <==> forall k :: 0 <= k < |outs| ==> outs[k].Some?
    ensures r.Some? ==> forall x :: x in r.value ==> x in known
    ensures r.Some? ==> forall k :: 0 <= k < |outs| && outs[k].value in known ==> outs[k].value in r.value
    ensures r.Some? ==> |r.value| <= |outs|
    decreases |outs|
  {
    if outs == [] then Some([])
    else
      var init := outs[..|outs| - 1];
      var last := outs[|outs| - 1];
      assert forall k :: 0 <= k < |init| ==> init[k] == outs[k];
      match FilterKnown(init, known)
      case None => None
      case Some(links) =>
        match last
        case None => None
        case Some(s) => if s in known then Some(links + [s]) else Some(links)
  }

  /** Filtering two runs of resolutions is filtering each: order and repeats are kept. */
  lemma {:induction false} FilterKnownAppend(a: seq<Option<string>>, b: seq<Option<string>>, known: set<string>)
    ensures FilterKnown(a + b, known)
            == match (FilterKnown(a, known), FilterKnown(b, known))
               case (Some(x), Some(y)) => Some(x + y)
               case _ => None
    decreases |b|
  {
    if b == [] {
      assert a + b == a;
      match FilterKnown(a, known)
      case Some(x) => assert x + [] == x;
      case None =>
    } else {
      var b' := b[..|b| - 1];
      FilterKnownAppend(a, b', known);
      assert (a + b)[..|a + b| - 1] == a + b';
      assert (a + b)[|a + b| - 1] == b[|b| - 1];
      match (FilterKnown(a, known), FilterKnown(b', known), b[|b| - 1])
      case (Some(x), Some(y), Some(s)) =>
        assert x + (y + [s]) == x + y + [s];
      case _ =>
    }
  }

  /** One more resolved target adds its note when known. */
  lemma FilterKnownStep(outs: seq<Option<string>>, j: int, known: set<string>, links: seq<string>)
    requires 0 <= j < |outs| && outs[j].Some?
    requires FilterKnown(outs[..j], known) == Some(links)
    ensures FilterKnown(outs[..j + 1], known)
            == Some(if outs[j].value in known then links + [outs[j].value] else links)
  {
    assert outs[..j + 1][..j] == outs[..j];
  }

  /** A single target contributes its note when known, and nothing otherwise. */
  lemma FilterKnownOne(out: Option<string>, known: set<string>)
    ensures FilterKnown([out], known)
            == match out
               case None => None
               case Some(s) => if s in known then Some([s]) else Some([])
  {
    assert [out][..0] == [];
    assert FilterKnown([], known) == Some([]);
    match out
    case Some(s) => assert [] + [s] == [s];
    case None =>
  }

  /** One target that does not decode makes the whole note fail. */
  lemma FailedTargetFails(outs: seq<Option<string>>, j: int, known: set<string>)
    requires 0 <= j < |outs| && outs[j].None?
    ensures FilterKnown(outs, known).None?
  {
  }

  /**
   * In a notes folder where every slug is canonical, a target that climbs
   * above the root from the linking note contributes nothing.
   */
  lemma EscapingTargetDropped(dir: seq<string>, name: string, t: string, known: set<string>)
    requires forall k :: 0 <= k < |dir| ==> IsPlainSegment(dir[k])
    requires Sep !in name
    requires |Split(t, [Sep])| > |dir|
    requires forall k :: 0 <= k <= |dir| ==> Split(t, [Sep])[k] == ".."
    requires forall s :: s in known ==> IsCanonical(s)
    ensures var r := FilterKnown(Resolutions(Join(dir + [name], [Sep]), [t]), known);
            r == None || r == Some([])
  {
    var slug := Join(dir + [name], [Sep]);
    EscapingLinkIsNotCanonical(dir, name, t);
    assert Resolutions(slug, [t]) == [GetSlugFromHref(slug, t)];
    FilterKnownOne(GetSlugFromHref(slug, t), known);
  }

  // ---------------------------------------------------------------------
  // getLinksMapping

  /** What `getLinksMapping` returns: entries for `.get`, properties for indexing. */
  datatype LinksMap = LinksMap(entries: map<string, seq<string>>, props: OrderedMap<seq<string>>)

  /** Why `getLinksMapping` throws. */
  datatype LinkError =
    | BadLink(slug: string, href: string) // `decodeURI` rejected a target of the note `slug`
    | ReadOnlyWrite                       // `linksMapping["size"] = ...`

  /**
   * `Map.prototype.size` is an accessor with no setter, so assigning the
   * property `size` of a `Map` object in module (strict-mode) code throws a
   * `TypeError`.
   */
  const ReadOnlyKey: string := "size"

  /**
   * The links of the note `slug` of `posts`, targets taken from its body:
   * `None` when some target does not decode, else notes of `posts` only.
   */
  function NoteLinks(posts: OrderedMap<string>, slug: string): (r: Option<seq<string>>)
    requires slug in posts.values
    ensures var targets := LinkTargets(posts.values[slug]);
            r.Some? <==> forall k :: 0 <= k < |targets| ==> GetSlugFromHref(slug, targets[k]).Some?
    ensures r.Some? ==> forall x :: x in r.value ==> x in posts.values
  {
    FilterKnown(Resolutions(slug, LinkTargets(posts.values[slug])), posts.values.Keys)
  }

  /**
   * The inner loop of `getLinksMapping` for the note `slug`: each target in
   * `matches` resolved in turn, known notes kept; the first target that does
   * not decode stops it.
   */
  method NoteLinkSlugs(slug: string, matches: seq<string>, allSlugs: set<string>) returns (r: Result<seq<string>, string>)
    ensures r.Ok? <==> FilterKnown(Resolutions(slug, matches), allSlugs).Some?
    ensures r.Ok? ==> FilterKnown(Resolutions(slug, matches), allSlugs) == Some(r.value)
    ensures r.Err? ==> r.error in matches && GetSlugFromHref(slug, r.error).None?
  {
    ghost var outs := Resolutions(slug, matches);
    var linkSlugs: seq<string> := [];
    for j := 0 to |matches|
      invariant FilterKnown(outs[..j], allSlugs) == Some(linkSlugs)
    {
      var linkSlug := GetSlugFromHref(slug, matches[j]);
      ResolutionAt(slug, matches, j);
      if linkSlug.None? {
        FailedTargetFails(outs, j, allSlugs);
        assert matches[j] in matches;
        return Err(matches[j]);
      }
      FilterKnownStep(outs, j, allSlugs, linkSlugs);
      if linkSlug.value in allSlugs {
        linkSlugs := linkSlugs + [linkSlug.value];
      }
    }
    assert outs[..|matches|] == outs;
    r := Ok(linkSlugs);
  }

  /** Every note's targets decode, so `getLinksMapping` does not throw. */
  ghost predicate AllResolve(pm: OrderedMap<string>)
    requires Valid(pm)
  {
    forall k :: 0 <= k < |pm.keys| ==> NoteLinks(pm, pm.keys[k]).Some?
  }

  /**
   * `m` is what `getLinksMapping` builds over `pm`: no map entries, and one
   * property per note, in the notes' order, holding its resolved links.
   */
  ghost predicate MapsLinks(pm: OrderedMap<string>, m: LinksMap)
    requires Valid(pm)
  {
    && m.entries == map[]
    && m.props.keys == pm.keys
    && m.props.values.Keys == pm.values.Keys
    && forall s :: s in m.props.values ==> Some(m.props.values[s]) == NoteLinks(pm, s)
  }

  /**
   * `getLinksMapping()` over `posts`, the `[slug, content]` pairs of
   * `getAllPosts(["slug", "content"])` in their order.
   */
  method GetLinksMapping(posts: seq<(string, string)>) returns (r: Result<LinksMap, LinkError>)
    ensures r.Ok? <==> AllResolve(FromEntries(posts)) && ReadOnlyKey !in FromEntries(posts).values
    ensures r.Ok? ==> MapsLinks(FromEntries(posts), r.value)
  {
    var postsMapping := FromEntries(posts);
    r := BuildLinksMapping(postsMapping);
  }

  /** The loop of `getLinksMapping` over `postsMapping`, one note after another in key order. */
  method BuildLinksMapping(postsMapping: OrderedMap<string>) returns (r: Result<LinksMap, LinkError>)
    requires Valid(postsMapping)
    ensures r.Ok? <==> AllResolve(postsMapping) && ReadOnlyKey !in postsMapping.values
    ensures r.Ok? ==> MapsLinks(postsMapping, r.value)
  {
    ghost var want := Wanted(postsMapping);
    var entries: map<string, seq<string>> := map[];
    var props: OrderedMap<seq<string>> := OrderedMap([], map[]);
    for i := 0 to |postsMapping.keys|
      invariant BuiltUpTo(postsMapping, want, props, i)
      invariant ReadOnlyKey !in props.values
    {
      var next := SetNoteLinks(postsMapping, want, props, i);
      if next.Err? {
        assert !NoteLinks(postsMapping, postsMapping.keys[i]).Some? || postsMapping.keys[i] in postsMapping.values;
        return Err(next.error);
      }
      props := next.value;
    }
    BuiltAll(postsMapping, want, props);
    r := Ok(LinksMap(entries, props));
  }

  /** The links `getLinksMapping` is to set for each note of `pm`. */
  ghost function Wanted(pm: OrderedMap<string>): (want: map<string, Option<seq<string>>>)
    ensures want.Keys == pm.values.Keys
    ensures forall s :: s in want ==> want[s] == NoteLinks(pm, s)
  {
    map s | s in pm.values :: NoteLinks(pm, s)
  }

  /**
   * One round of `getLinksMapping`: the links of the `i`-th note, then the
   * assignment of the property, which throws for the key `size`.
   */
  method SetNoteLinks(pm: OrderedMap<string>, ghost want: map<string, Option<seq<string>>>,
                      props: OrderedMap<seq<string>>, i: int)
    returns (r: Result<OrderedMap<seq<string>>, LinkError>)
    requires Valid(pm) && want == Wanted(pm) && BuiltUpTo(pm, want, props, i) && i < |pm.keys|
    ensures r.Ok? <==> NoteLinks(pm, pm.keys[i]).Some? && pm.keys[i] != ReadOnlyKey
    ensures r.Err? && NoteLinks(pm, pm.keys[i]).Some? ==> r.error == ReadOnlyWrite
    ensures r.Ok? ==> BuiltUpTo(pm, want, r.value, i + 1) && r.value.values == props.values[pm.keys[i] := r.value.values[pm.keys[i]]]
  {
    var slug := pm.keys[i];
    var linkSlugs := NoteLinkSlugs(slug, LinkTargets(pm.values[slug]), pm.values.Keys);
    if linkSlugs.Err? {
      return Err(BadLink(slug, linkSlugs.error));
    }
    if slug == ReadOnlyKey {
      return Err(ReadOnlyWrite);
    }
    BuiltStep(pm, want, props, i, linkSlugs.value);
    r := Ok(Put(props, slug, linkSlugs.value));
  }

  /** The properties set by the first `i` rounds of `getLinksMapping` over `pm`. */
  ghost predicate BuiltUpTo(pm: OrderedMap<string>, want: map<string, Option<seq<string>>>,
                            props: OrderedMap<seq<string>>, i: int)
  {
    && 0 <= i <= |pm.keys|
    && props.keys == pm.keys[..i]
    && (forall s :: s in props.values <==> s in pm.keys[..i])
    && (forall s :: s in props.values ==> s in want && Some(props.values[s]) == want[s])
  }

  /** One more round sets the next note's links. */
  lemma BuiltStep(pm: OrderedMap<string>, want: map<string, Option<seq<string>>>,
                  props: OrderedMap<seq<string>>, i: int, links: seq<string>)
    requires Valid(pm) && BuiltUpTo(pm, want, props, i) && i < |pm.keys|
    requires pm.keys[i] in want && want[pm.keys[i]] == Some(links)
    ensures BuiltUpTo(pm, want, Put(props, pm.keys[i], links), i + 1)
  {
    assert pm.keys[..i + 1] == pm.keys[..i] + [pm.keys[i]];
    assert pm.keys[i] !in pm.keys[..i];
  }

  /** After every round, every note has its links set. */
  lemma BuiltAll(pm: OrderedMap<string>, want: map<string, Option<seq<string>>>, props: OrderedMap<seq<string>>)
    requires Valid(pm) && want == Wanted(pm) && BuiltUpTo(pm, want, props, |pm.keys|)
    ensures AllResolve(pm) && MapsLinks(pm, LinksMap(map[], props))
  {
    assert pm.keys[..|pm.keys|] == pm.keys;
    forall k | 0 <= k < |pm.keys| ensures NoteLinks(pm, pm.keys[k]).Some? {
      assert pm.keys[k] in props.values;
    }
  }

  // ---------------------------------------------------------------------
  // getBacklinks and getOutgoingLinks

  /** `linkMapping[k].includes(slug) && k !== slug` */
  predicate LinksTo(m: LinksMap, k: string, slug: string)
  {
    k in m.props.values && slug in m.props.values[k] && k != slug
  }

  /** The keys of `keys` that link to `slug`, in order. */
  function FilterLinksTo(m: LinksMap, keys: seq<string>, slug: string): (r: seq<string>)
    ensures forall x :: x in r <==> x in keys && LinksTo(m, x, slug)
    ensures |r| <= |keys|
    decreases |keys|
  {
    if keys == [] then []
    else (if LinksTo(m, keys[0], slug) then [keys[0]] else []) + FilterLinksTo(m, keys[1..], slug)
  }

  /** `getBacklinks(linkMapping, slug)`: `Object.keys` filtered. */
  function GetBacklinks(m: LinksMap, slug: string): (r: seq<string>)
    ensures forall k :: k in r <==> k in m.props.keys && LinksTo(m, k, slug)
  {
    FilterLinksTo(m, m.props.keys, slug)
  }

  /** A note is never its own backlink, even when it links to itself. */
  lemma NoSelfBacklink(m: LinksMap, slug: string)
    ensures slug !in GetBacklinks(m, slug)
  {
  }

  /** No string repeats in `s`. */
  predicate NoRepeats(s: seq<string>)
  {
    forall i, j :: 0 <= i < j < |s| ==> s[i] != s[j]
  }

  /** Each backlink is listed once, when the keys are distinct. */
  lemma {:induction false} FilterLinksToDistinct(m: LinksMap, keys: seq<string>, slug: string)
    requires NoRepeats(keys)
    ensures NoRepeats(FilterLinksTo(m, keys, slug))
    decreases |keys|
  {
    if keys != [] {
      assert NoRepeats(keys[1..]);
      FilterLinksToDistinct(m, keys[1..], slug);
      var rest := FilterLinksTo(m, keys[1..], slug);
      assert keys[0] !in keys[1..];
      assert keys[0] !in rest;
      var r := FilterLinksTo(m, keys, slug);
      if LinksTo(m, keys[0], slug) {
        assert r == [keys[0]] + rest;
        forall i, j | 0 <= i < j < |r| ensures r[i] != r[j] {
          assert r[j] == rest[j - 1];
          assert rest[j - 1] in rest;
          if i > 0 {
            assert r[i] == rest[i - 1];
          }
        }
      } else {
        assert r == rest;
      }
    }
  }

  /** `getBacklinks` lists each backlink once. */
  lemma BacklinksDistinct(m: LinksMap, slug: string)
    requires Valid(m.props)
    ensures NoRepeats(GetBacklinks(m, slug))
  {
    FilterLinksToDistinct(m, m.props.keys, slug);
  }

  /**
   * An own property named `get`, such as the links of a note named `get`,
   * hides `Map.prototype.get`: calling it calls an array and throws a
   * `TypeError`.
   */
  const ShadowedGet: string := "get"

  /**
   * `linkMapping.get(slug) || []`, as written: it reads the entries, and
   * throws (`None`) when an own property hides `get`.
   */
  function GetOutgoingLinksAsWritten(m: LinksMap, slug: string): (r: Option<seq<string>>)
    ensures r.None? <==> ShadowedGet in m.props.values
    ensures r.Some? && slug in m.entries ==> r.value == m.entries[slug]
    ensures r.Some? && slug !in m.entries ==> r.value == []
  {
    if ShadowedGet in m.props.values then None
    else if slug in m.entries then Some(m.entries[slug])
    else Some([])
  }

  /**
   * On what `getLinksMapping` returns, the entries are empty: no note has
   * outgoing links, and a corpus with a note named `get` makes every call throw.
   */
  lemma OutgoingAsWrittenIsEmpty(posts: seq<(string, string)>, m: LinksMap, slug: string)
    requires MapsLinks(FromEntries(posts), m)
    ensures GetOutgoingLinksAsWritten(m, slug) == if ShadowedGet in FromEntries(posts).values then None else Some([])
  {
  }

  /** `getOutgoingLinks`, reading the one dictionary the links are stored in. */
  function GetOutgoingLinks(m: LinksMap, slug: string): (r: seq<string>)
    ensures slug in m.props.values ==> r == m.props.values[slug]
    ensures slug !in m.props.values ==> r == []
  {
    if slug in m.props.values then m.props.values[slug] else []
  }

  /**
   * Backlinks are the transpose of outgoing links, self-links aside: `a` is
   * a backlink of `b` exactly when `b` is an outgoing link of `a` and they
   * differ.
   */
  lemma BacklinksTranspose(m: LinksMap, a: string, b: string)
    requires Valid(m.props)
    ensures a in GetBacklinks(m, b) <==> b in GetOutgoingLinks(m, a) && a != b
  {
  }

  /**
   * On a link graph that was built, no note links to `size`: every link
   * names a note, and a note named `size` makes the build throw.
   */
  lemma BuiltGraphAvoidsReadOnlyKey(posts: seq<(string, string)>, m: LinksMap, slug: string)
    requires MapsLinks(FromEntries(posts), m) && ReadOnlyKey !in FromEntries(posts).values
    requires slug in m.props.values
    ensures ReadOnlyKey !in m.props.values[slug]
  {
    var pm := FromEntries(posts);
    assert Some(m.props.values[slug]) == FilterKnown(Resolutions(slug, LinkTargets(pm.values[slug])), pm.values.Keys);
  }

  /** On a link graph built from `posts`, outgoing links are the resolved links of the note. */
  lemma OutgoingLinksOfBuiltGraph(posts: seq<(string, string)>, m: LinksMap, slug: string)
    requires MapsLinks(FromEntries(posts), m)
    requires slug in FromEntries(posts).values
    ensures var pm := FromEntries(posts);
            && (forall x :: x in GetOutgoingLinks(m, slug) ==> x in pm.values)
            && Some(GetOutgoingLinks(m, slug)) == NoteLinks(pm, slug)
  {
  }
}
