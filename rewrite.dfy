/**
 * `rewriteMarkdownLinks(markdown, slug)`: first every link whose target ends
 * in `.md` loses that extension, then every link target that names an
 * existing asset is rewritten to the site's asset folder. The filesystem
 * probe `fs.existsSync`, the notes folder and the asset folder are
 * parameters.
 */
module Rewrite {
  import opened Wrappers
  import opened JsStrings
  import opened NodePath
  import opened Uri
  import opened LinkRegex
  import opened Slugs

  // ---------------------------------------------------------------------
  // Step 1: `.md` removed from link targets

  /** The matches of `/(\[[^\[\]]+\]\([^\(\)]+)(\.md)(\))/g` in `s`. */
  function MdSpans(s: string): (spans: seq<Span>)
    ensures Ordered(spans, 0, |s|)
    ensures forall k :: 0 <= k < |spans| ==>
      && spans[k].start < |s|
      && LinkEnd(s, spans[k].start, 1, true) == Some(spans[k].end)
  {
    Scan(MdTargetPattern, s, 0)
  }

  /** A `.md` link match ends in `.md)`, well after its `[`. */
  lemma MdSpanShape(s: string, sp: Span)
    requires sp.start < |s| && LinkEnd(s, sp.start, 1, true) == Some(sp.end)
    ensures sp.start + 4 < sp.end <= |s|
    ensures s[sp.end - 4..sp.end - 1] == ".md" && s[sp.end - 1] == ')'
  {
    LinkEndIsLink(s, sp.start, 1, true);
  }

  /** The `.md` of each match: group 2 of the pattern. */
  function Extensions(s: string, spans: seq<Span>): (inner: seq<Span>)
    requires forall k :: 0 <= k < |spans| ==> spans[k].start < |s| && LinkEnd(s, spans[k].start, 1, true) == Some(spans[k].end)
    ensures |inner| == |spans|
    ensures forall k :: 0 <= k < |spans| ==>
      && spans[k].start <= inner[k].start <= inner[k].end <= spans[k].end <= |s|
      && s[inner[k].start..inner[k].end] == ".md"
      && inner[k].end == spans[k].end - 1
  {
    var inner := seq(|spans|, k requires 0 <= k < |spans| =>
      MdSpanShape(s, spans[k]);
      Span(spans[k].end - 4, spans[k].end - 1));
    assert forall k :: 0 <= k < |spans| ==>
      && spans[k].start <= inner[k].start <= inner[k].end <= spans[k].end <= |s|
      && s[inner[k].start..inner[k].end] == ".md"
    by {
      forall k | 0 <= k < |spans| {
        MdSpanShape(s, spans[k]);
      }
    }
    inner
  }

  /** `"$1$3"` for each match: the match without its `.md`. */
  function MdReplacements(s: string, spans: seq<Span>): (reps: seq<string>)
    requires forall k :: 0 <= k < |spans| ==> spans[k].start < |s| && LinkEnd(s, spans[k].start, 1, true) == Some(spans[k].end)
    ensures |reps| == |spans|
    ensures var inner := Extensions(s, spans);
            forall k :: 0 <= k < |spans| ==>
              reps[k] == s[spans[k].start..inner[k].start] + s[inner[k].end..spans[k].end]
  {
    seq(|spans|, k requires 0 <= k < |spans| =>
      MdSpanShape(s, spans[k]);
      s[spans[k].start..spans[k].end - 4] + s[spans[k].end - 1..spans[k].end])
  }

  /**
   * `markdown.replaceAll(/(\[[^\[\]]+\]\([^\(\)]+)(\.md)(\))/g, "$1$3")`:
   * exactly the `.md` right before the `)` of each such link is deleted, and
   * every other character is kept in order.
   */
  function StripLinkMd(s: string): (r: string)
    ensures Ordered(Extensions(s, MdSpans(s)), 0, |s|)
    ensures r == DeleteSpans(s, 0, Extensions(s, MdSpans(s)))
  {
    var spans := MdSpans(s);
    SpliceDeletesInner(s, 0, spans, Extensions(s, spans), MdReplacements(s, spans));
    Splice(s, 0, spans, MdReplacements(s, spans))
  }

  /** Each piece `StripLinkMd` deletes reads `.md` and sits right before a link's closing `)`. */
  lemma StrippedPiecesAreMd(s: string, k: int)
    requires 0 <= k < |MdSpans(s)|
    ensures var sp := Extensions(s, MdSpans(s))[k];
            && s[sp.start..sp.end] == ".md"
            && sp.end < |s| && s[sp.end] == ')'
  {
    MdSpanShape(s, MdSpans(s)[k]);
  }

  /** A text with no `[text](target.md)` link is left as it is. */
  lemma {:induction false} NoMdLinkUnchanged(s: string)
    requires MdSpans(s) == []
    ensures StripLinkMd(s) == s
  {
    assert DeleteSpans(s, 0, []) == s[0..];
  }

  // ---------------------------------------------------------------------
  // Step 2: asset links

  /** The environment the asset rewrite reads: folders and the filesystem probe. */
  datatype AssetEnv = AssetEnv(
    mdDir: string,                 // the notes folder, `path.join(cwd, COMMON_MD_DIR)`
    relAssetDir: string,           // `path.relative("./public", MD_ASSET_DIR)`
    fileExists: string -> bool)    // `fs.existsSync`

  /** `path.join(...slug.split(path.sep).slice(0, -1))`: the note's folder. */
  function SlugDir(slug: string): (d: string)
    ensures d != ""
  {
    PathJoin(NoteDir(slug))
  }

  /**
   * `relLink`: the target as written when it starts with the note's folder
   * as text, and the target joined onto that folder otherwise.
   */
  function RelLink(slugDir: string, target: string): (r: string)
    ensures StartsWith(target, slugDir) ==> r == target
    ensures !StartsWith(target, slugDir) ==> r == PathJoin([slugDir, target])
  {
    if !StartsWith(target, slugDir) then PathJoin([slugDir, target]) else target
  }

  /**
   * The `startsWith` test is on text, not on path segments: from a note in
   * folder `d`, a target in a sibling folder whose name extends `d` is taken
   * as already relative to the notes folder.
   */
  lemma SiblingFolderTakenAsRelative(d: string, x: string, rest: string)
    ensures RelLink(d, d + x + rest) == d + x + rest
  {
    assert (d + x + rest)[..|d|] == d;
  }

  /** The three groups of an asset-link match: `[text](`, the target and `)`. */
  datatype Groups = Groups(open: string, target: string, close: string)

  /** The groups of the match `s[sp.start..sp.end]` of `/(\[[^\[\]]*\]\()([^\(\)]+)(\))/g`. */
  function AssetGroups(s: string, sp: Span): (g: Groups)
    requires sp.start < |s| && LinkEnd(s, sp.start, 0, false) == Some(sp.end)
    ensures g.open + g.target + g.close == s[sp.start..sp.end]
    ensures g.target != "" && '(' !in g.target && ')' !in g.target
    ensures g.close == ")" && g.open != "" && g.open[0] == '['
  {
    LinkEndIsLink(s, sp.start, 0, false);
    var te := LinkTextEnd(s, sp.start);
    var t := s[te + 2..sp.end - 1];
    assert forall k :: 0 <= k < |t| ==> t[k] == s[te + 2 + k];
    assert s[sp.start..te + 2] + t + s[sp.end - 1..sp.end] == s[sp.start..sp.end];
    Groups(s[sp.start..te + 2], t, s[sp.end - 1..sp.end])
  }

  /**
   * The replacer of the asset pass for one match of note `slug`. Both paths
   * are decoded before either is probed, so a bad escape in either throws
   * (`None`). A target found under the note's folder is pointed at the asset
   * folder through `relLink`, one found under the notes folder through the
   * target as written, and any other match is kept.
   */
  function AssetReplacement(env: AssetEnv, slug: string, g: Groups): (r: Option<string>)
    ensures var relLink := RelLink(SlugDir(slug), g.target);
            r.Some? <==> WellEscaped(PathJoin([env.mdDir, relLink])) && WellEscaped(PathJoin([env.mdDir, g.target]))
    ensures r.Some? ==>
              || r.value == g.open + g.target + g.close
              || r.value == g.open + "/" + PathJoin([env.relAssetDir, RelLink(SlugDir(slug), g.target)]) + g.close
              || r.value == g.open + "/" + PathJoin([env.relAssetDir, g.target]) + g.close
  {
    var relLink := RelLink(SlugDir(slug), g.target);
    var relPath := PathJoin([env.mdDir, relLink]);
    var absPath := PathJoin([env.mdDir, g.target]);
    assert DecodeURI(relPath).Some? && DecodeURI(absPath).Some? <==> WellEscaped(relPath) && WellEscaped(absPath) by {
      DecodeSucceedsIffWellEscaped(relPath);
      DecodeSucceedsIffWellEscaped(absPath);
    }
    if DecodeURI(relPath).None? || DecodeURI(absPath).None? then None
    else
      var fileSlugRel := DecodeURI(relPath).value;
      var fileSlugAbs := DecodeURI(absPath).value;
      if env.fileExists(fileSlugRel) then Some(g.open + "/" + PathJoin([env.relAssetDir, relLink]) + g.close)
      else if env.fileExists(fileSlugAbs) then Some(g.open + "/" + PathJoin([env.relAssetDir, g.target]) + g.close)
      else Some(g.open + g.target + g.close)
  }

  /**
   * Which link the replacer returns is chosen by `fs.existsSync` on the
   * decoded paths: the one under the note's folder first, then the one
   * under the notes folder, and otherwise the match is kept.
   */
  lemma AssetReplacementSelects(env: AssetEnv, slug: string, g: Groups)
    requires AssetReplacement(env, slug, g).Some?
    ensures var r := AssetReplacement(env, slug, g).value;
            var relLink := RelLink(SlugDir(slug), g.target);
            var rel := DecodeURI(PathJoin([env.mdDir, relLink])).value;
            var abs := DecodeURI(PathJoin([env.mdDir, g.target])).value;
            && (env.fileExists(rel) ==> r == g.open + "/" + PathJoin([env.relAssetDir, relLink]) + g.close)
            && (!env.fileExists(rel) && env.fileExists(abs) ==> r == g.open + "/" + PathJoin([env.relAssetDir, g.target]) + g.close)
            && (!env.fileExists(rel) && !env.fileExists(abs) ==> r == g.open + g.target + g.close)
  {
  }

  /** The matches of `/(\[[^\[\]]*\]\()([^\(\)]+)(\))/g` in `s`. */
  function AssetSpans(s: string): (spans: seq<Span>)
    ensures Ordered(spans, 0, |s|)
    ensures forall k :: 0 <= k < |spans| ==>
      && spans[k].start < |s|
      && LinkEnd(s, spans[k].start, 0, false) == Some(spans[k].end)
  {
    Scan(AssetLinkPattern, s, 0)
  }

  /** What the replacer returns for each of `spans`, in order. */
  function AssetOutcomes(env: AssetEnv, slug: string, s: string, spans: seq<Span>): (outs: seq<Option<string>>)
    requires forall k :: 0 <= k < |spans| ==> spans[k].start < |s| && LinkEnd(s, spans[k].start, 0, false) == Some(spans[k].end)
    ensures |outs| == |spans|
    ensures forall k :: 0 <= k < |spans| ==> outs[k] == AssetReplacement(env, slug, AssetGroups(s, spans[k]))
  {
    seq(|spans|, k requires 0 <= k < |spans| => AssetReplacement(env, slug, AssetGroups(s, spans[k])))
  }

  /**
   * `s[from..]` with each match replaced by its outcome, or `None` when the
   * replacer threw on any of them.
   */
  function SpliceOutcomes(s: string, from: nat, spans: seq<Span>, outs: seq<Option<string>>): (r: Option<string>)
    requires from <= |s| && Ordered(spans, from, |s|) && |outs| == |spans|
    decreases |spans|
  {
    if spans == [] then Some(s[from..])
    else
      match outs[0]
      case None => None
      case Some(rep) =>
        match SpliceOutcomes(s, spans[0].end, spans[1..], outs[1..])
        case None => None
        case Some(rest) => Some(s[from..spans[0].start] + rep + rest)
  }

  /** The values of outcomes that all succeeded. */
  function Values(outs: seq<Option<string>>): (reps: seq<string>)
    requires forall k :: 0 <= k < |outs| ==> outs[k].Some?
    ensures |reps| == |outs| && forall k :: 0 <= k < |outs| ==> Some(reps[k]) == outs[k]
  {
    seq(|outs|, k requires 0 <= k < |outs| => outs[k].value)
  }

  /**
   * Splicing outcomes succeeds exactly when every outcome does, and then it
   * is the splice of their values: text between matches is copied unchanged.
   */
  lemma {:induction false} SpliceOutcomesIsSplice(s: string, from: nat, spans: seq<Span>, outs: seq<Option<string>>)
    requires from <= |s| && Ordered(spans, from, |s|) && |outs| == |spans|
    ensures SpliceOutcomes(s, from, spans, outs).Some? <==> forall k :: 0 <= k < |outs| ==> outs[k].Some?
    ensures SpliceOutcomes(s, from, spans, outs).Some? ==>
              SpliceOutcomes(s, from, spans, outs).value == Splice(s, from, spans, Values(outs))
    decreases |spans|
  {
    if spans != [] {
      SpliceOutcomesIsSplice(s, spans[0].end, spans[1..], outs[1..]);
      assert forall k :: 1 <= k < |outs| ==> outs[1..][k - 1] == outs[k];
      if forall k :: 0 <= k < |outs| ==> outs[k].Some? {
        assert Values(outs)[1..] == Values(outs[1..]);
      }
    }
  }

  /** `markdown.replaceAll(assetPattern, replacer)` for the note `slug`. */
  function RewriteAssetLinks(env: AssetEnv, slug: string, s: string): (r: Option<string>)
    ensures r.Some? <==> forall k :: 0 <= k < |AssetSpans(s)| ==>
      AssetReplacement(env, slug, AssetGroups(s, AssetSpans(s)[k])).Some?
    ensures r.Some? ==>
      r.value == Splice(s, 0, AssetSpans(s), Values(AssetOutcomes(env, slug, s, AssetSpans(s))))
  {
    var spans := AssetSpans(s);
    var outs := AssetOutcomes(env, slug, s, spans);
    SpliceOutcomesIsSplice(s, 0, spans, outs);
    SpliceOutcomes(s, 0, spans, outs)
  }

  /**
   * Where no asset file exists and every path decodes, the asset pass
   * changes nothing.
   */
  lemma NoAssetsUnchanged(env: AssetEnv, slug: string, s: string)
    requires forall p :: !env.fileExists(p)
    requires forall k :: 0 <= k < |AssetSpans(s)| ==>
      AssetReplacement(env, slug, AssetGroups(s, AssetSpans(s)[k])).Some?
    ensures RewriteAssetLinks(env, slug, s) == Some(s)
  {
    var spans := AssetSpans(s);
    var reps := Values(AssetOutcomes(env, slug, s, spans));
    forall k | 0 <= k < |spans| ensures reps[k] == s[spans[k].start..spans[k].end] {
      var g := AssetGroups(s, spans[k]);
      assert Some(reps[k]) == AssetReplacement(env, slug, g);
    }
    SpliceUnchanged(s, 0, spans, reps);
  }

  // ---------------------------------------------------------------------
  // rewriteMarkdownLinks

  /**
   * `rewriteMarkdownLinks(markdown, slug)`: `markdown` is reassigned by the
   * `.md` pass, then by the asset pass; `None` is the `URIError` the asset
   * pass throws.
   */
  method RewriteMarkdownLinks(env: AssetEnv, markdown: string, slug: string) returns (r: Option<string>)
    ensures r == RewriteAssetLinks(env, slug, DeleteSpans(markdown, 0, Extensions(markdown, MdSpans(markdown))))
  {
    var md := markdown;
    md := StripLinkMd(md);
    r := RewriteAssetLinks(env, slug, md);
  }
}
