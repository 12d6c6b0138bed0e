# obsidian-publish-starter: the note graph and its rewrites, in Dafny

This project models the core of obsidian-publish-starter. The starter publishes a folder of Obsidian markdown notes as a website. The core does four things:

- It resolves the targets of markdown links to note slugs (`getSlugFromHref`, `parseSlug`).
- It loads notes with front-matter defaults, projects the fields a caller asks for, and sorts posts newest first (`parseFileToObj`, `getPostBySlug`, `getAllPosts`).
- It builds the link graph and derives backlinks and outgoing links from it (`getLinksMapping`, `getBacklinks`, `getOutgoingLinks`).
- It rewrites the text and the HTML tree of a note. `rewriteMarkdownLinks` strips `.md` from link targets and points asset links at the asset folder. The body of `markdownToHtml` (lib/markdownToHtml.ts:27-117) builds one preview card per outgoing link, and `rewriteLinkNodes` turns an anchor into the anchor followed by the linked note's card. The math pass unescapes backslashed symbols. As written, `markdownToHtml` throws before any of this, at its first line (see "The imported name" below).

Modules, in dependency order:

- `Wrappers`: `Option` and `Result`.
- `JsStrings`: the string methods the source calls, as ECMAScript defines them: `split`, `join`, `replaceAll` with a string pattern, `trim`, `slice` and the `>` comparison of strings.
- `NodePath`: Node's POSIX `path.join`, `path.normalize` and `path.basename`.
- `Uri`: `decodeURI`, including its decoding of UTF-8 sequences of escapes, and `encodeURI` as its inverse.
- `LinkRegex`: the regular expressions of the source, as leftmost, non-overlapping scans. It also models `replaceAll` with a regular expression, as splicing replacements into the scanned spans.
- `Slugs`: `getSlugFromHref` and `parseSlug`.
- `Excerpt`: `getMDExcerpt`.
- `Posts`: `parseFileToObj`, `getPostBySlug` and `getAllPosts`.
- `LinkGraph`: `getLinksMapping`, `getBacklinks` and `getOutgoingLinks`.
- `Rewrite`: `rewriteMarkdownLinks`.
- `Render`: the HTML tree nodes as a class, `createNoteNode`, the `linkNodeMapping` loop, `rewriteLinkNodes` and the math unescape loop.

The model follows the form of the code:

- Imperative parts are methods with loops. These are the `getLinksMapping` loops, the `fields.forEach` of `getPostBySlug`, the `linkNodeMapping` loop, the children loop of the math pass and `parseSlug`.
- Tree nodes are objects of class `HastNode`. `rewriteLinkNodes` changes them in place, and one card object may hang under several anchors.
- Everything else is functions and lemmas.

Where the code can throw, the model returns `None` or `Err`. A `decodeURI` `URIError`, a missing file, a missing `href`, an iteration over `undefined` and an assignment to the read-only `size` of a `Map` are all modelled this way.

### Where the code is surprising, and what the model does

- **Resolving a slug against itself.** `getSlugFromHref` (lib/api.ts:160-164) joins the target onto the folder of the linking note, even when the target is already a full slug. `folder/a` linking to `folder/a` therefore resolves to `folder/folder/a` (`Slugs.NestedSelfExample`). A canonical slug resolves to itself only from a note at the root (`Slugs.RootNoteResolvesCanonical`). The model keeps this.
- **Order of equal dates.** The comparator of `getAllPosts` (lib/api.ts:85) never returns `0`, so it is not a consistent comparator and ECMAScript leaves the order of equal dates to the engine. The model takes the stable order and proves it (`Posts.SortKeepsTies`, stated for the whole call by `Posts.GetAllPosts`).
- **Where the graph is stored.** `getLinksMapping` writes each list as a property of a `Map` object (lib/api.ts:117), and `getBacklinks` reads those properties, but `getOutgoingLinks` reads the `Map`'s entries (lib/api.ts:150). See Findings.
- **The key `size`.** `linksMapping[slug] = …` (lib/api.ts:117) and `linkNodeMapping[l] = node` (lib/markdownToHtml.ts:32) assign a property of a `Map`. `Map.prototype.size` is an accessor without a setter, and module code runs in strict mode, so both assignments throw a `TypeError` for the key `size`. The model keeps this: `LinkGraph.GetLinksMapping` fails for a note named `size`, and `Render.BuildLinkNodeMapping` fails for a link to it.
- **Textual folder test.** `rewriteMarkdownLinks` tests `m2.startsWith(slugDir)` on text, not on path segments (lib/api.ts:182). From a note in folder `d`, a target in a sibling folder `dx/…` is therefore treated as already relative to the root. The model keeps this as written (`Rewrite.SiblingFolderTakenAsRelative`).
- **The imported name.** `markdownToHtml` imports `updateMarkdownLinks` (lib/markdownToHtml.ts:15) and calls it (lib/markdownToHtml.ts:24), but `lib/api.ts` exports no such name. As written, every call of `markdownToHtml` therefore throws at line 24, calling `undefined`, or the build fails on the missing export. No card is built and no node is rewritten. The `Render` members model lines 27-117 as they would run if the call succeeded. No member composes `markdownToHtml` as a whole; `rewriteMarkdownLinks` is modelled on its own, by `Rewrite.RewriteMarkdownLinks`.

## Model

| member | source | states |
|---|---|---|
| Uri.DecodeURI | lib/api.ts:161-163 | Decoding never makes the text longer. `None` is the `URIError`. |
| Uri.SequenceLength | lib/api.ts:161-163 | A byte below 0x80 stands alone, a lead byte starts a sequence of two to four bytes, and a continuation byte or one of C0, C1, F5 to FF starts none. |
| Uri.CodePoint | lib/api.ts:161-163 | A decoded sequence is never ASCII and its length fits its code point: no overlong form is accepted. |
| Uri.ThreeByteValue | lib/api.ts:161-163 | A three-byte sequence never decodes to a surrogate. |
| Uri.DecodeSucceedsIffWellEscaped | lib/api.ts:161-163 | `decodeURI` throws exactly when some `%` does not start two hexadecimal digits, or some escape of a byte at or above 0x80 neither starts a well-formed UTF-8 sequence nor continues the one it belongs to. |
| Uri.DecodeWithoutPercent | lib/api.ts:161-163 | Text with no `%` decodes to itself. |
| Uri.DecodeKeepsPlainPrefix | lib/api.ts:161-163 | A prefix with no `%` passes through decoding unchanged, and the rest decodes (or fails) on its own. |
| Uri.EncodeURI | lib/api.ts:161-163 | `encodeURI`, the inverse `decodeURI` is checked against: escaping never shortens the text. |
| Uri.EscapeOf | lib/api.ts:161-163 | The escape written for a byte reads back as that byte. |
| Uri.Utf8Bytes | lib/api.ts:161-163 | The UTF-8 bytes of a character outside ASCII form a well-formed sequence of two to four bytes. |
| Uri.EncodedCharDecodes | lib/api.ts:161-163 | The escaped UTF-8 bytes of a character form one sequence, which decodes to that character. |
| Uri.DecodeEncodeRoundTrip | lib/api.ts:161-163 | Decoding the `encodeURI` of any text gives that text back. |
| Uri.MalformedUtf8Throws | lib/api.ts:161-163 | `%80`, `%C3`, `%C3%28`, `%C0%AF` and `%ED%A0%80` throw. |
| Uri.TwoByteDecodes | lib/api.ts:161-163 | `%C3%A9` decodes to `é`. |
| Uri.ThreeByteDecodes | lib/api.ts:161-163 | `%E2%82%AC` decodes to `€`. |
| JsStrings.Split | lib/api.ts:162 | `split` always returns at least one piece. |
| JsStrings.SplitJoinRoundTrip | lib/api.ts:162 | Joining the pieces of a split with the separator gives back the string. |
| JsStrings.SplitPiecesAvoidSeparator | lib/api.ts:162 | No piece of a split contains the separator: every occurrence was cut. |
| JsStrings.SplitWithoutSeparator | lib/api.ts:162 | A string without the separator character splits into itself alone. |
| JsStrings.SplitAround | lib/api.ts:162 | Splitting around one separator character splits each side on its own. |
| JsStrings.SplitPiecesWithoutSeparator | lib/api.ts:162 | No piece of a split on one character contains that character. |
| JsStrings.SplitJoinInverse | lib/api.ts:162 | Splitting a join of pieces free of the separator gives the pieces back. |
| JsStrings.JoinAppend | lib/api.ts:162 | Joining one more piece appends the separator and the piece. |
| JsStrings.JoinConcat | lib/api.ts:162 | Joining two runs of pieces is joining each, with one separator between them. |
| JsStrings.ReplaceAll | lib/markdownToHtml.ts:65 | A replacement no longer than the pattern never lengthens the text, and a text shorter than the pattern is kept. |
| JsStrings.ReplaceAllIsSplitJoin | lib/markdownToHtml.ts:65 | `replaceAll(pat, rep)` equals `split(pat).join(rep)`: every occurrence is replaced, left to right, without overlap. |
| JsStrings.ReplaceAllAbsent | lib/markdownToHtml.ts:65 | Text without the pattern's first character is unchanged. |
| JsStrings.ReplaceAllPrefix | lib/markdownToHtml.ts:65 | A prefix without the pattern's first character is kept as it is. |
| JsStrings.ReplaceAllAtStart | lib/markdownToHtml.ts:65 | An occurrence at the start is replaced, and the rest is processed after it. |
| JsStrings.ReplaceAllShrinks | lib/markdownToHtml.ts:65 | A replacement no longer than the pattern never makes the text longer. |
| JsStrings.Trim | lib/markdownToHtml.ts:93 | `trim` returns the infix of the input left after removing the leading and trailing whitespace, and nothing else. Its first and last characters are not whitespace. |
| JsStrings.TrimIdempotent | lib/markdownToHtml.ts:93 | Trimming twice is trimming once. |
| JsStrings.SlicePrefix | lib/markdownToHtml.ts:93 | `slice(0, n)` is the prefix of length `min(n, len)`. A negative `n` counts from the end. |
| JsStrings.LessIrreflexive | lib/api.ts:85 | No string is `>` itself. |
| JsStrings.LessTransitive | lib/api.ts:85 | String order is transitive. |
| JsStrings.LessTotal | lib/api.ts:85 | Two different strings are ordered one way or the other. |
| JsStrings.LessAsymmetric | lib/api.ts:85 | If `a < b` then not `b < a`. |
| JsStrings.NotLessTransitive | lib/api.ts:85 | "Not older than" is transitive, which the sort relies on. |
| JsStrings.EmptyIsLeast | lib/api.ts:85 | The empty date is below every other date. |
| NodePath.Step | lib/api.ts:162 | One segment of `normalizeString`: a `..` pops the last kept segment unless it is a `..`, any other segment keeps every segment kept so far, and at most one segment is added. |
| NodePath.Resolve | lib/api.ts:162 | Resolving never yields more segments than it was given, and segments without `..` only add to what was kept. |
| NodePath.Normalize | lib/api.ts:162 | `path.normalize` never returns the empty string. |
| NodePath.PathJoin | lib/api.ts:162 | `path.join` never returns the empty string. |
| NodePath.NonEmpty | lib/api.ts:162 | `path.join` keeps exactly the non-empty arguments. |
| NodePath.BaseName | lib/api.ts:68 | `path.basename` contains no separator. |
| NodePath.ResolveAppend | lib/api.ts:162 | Resolving two runs of segments is resolving the second from where the first ended. |
| NodePath.ResolveIsResolved | lib/api.ts:162 | After resolution no empty or `.` segment is left, every `..` is at the front, and none is left under an absolute root. |
| NodePath.ResolveOfResolved | lib/api.ts:162 | Resolving segments that are already resolved changes nothing. |
| NodePath.NormalizeSmallCases | lib/api.ts:162 | `normalize` of `.`, `/` and `./` gives `.`, `/` and `./`. |
| NodePath.NormalizeRendered | lib/api.ts:162 | A rendered resolved path is its own normal form. |
| NodePath.NormalizeIdempotent | lib/utils/parseSlug.ts:22 | Normalising twice is normalising once. |
| NodePath.PathJoinIdempotent | lib/utils/parseSlug.ts:22 | `path.join` of a joined path is that path. |
| NodePath.JoinPlainSegments | lib/api.ts:162 | `path.join` of plain segments is the segments joined with `/`. |
| NodePath.PathJoinNonEmpty | lib/api.ts:162 | `path.join` of non-empty arguments normalises their `/`-join. |
| NodePath.NormalizeRelative | lib/api.ts:162 | A relative path normalises to its resolved segments joined with `/`. |
| NodePath.PathJoinUnderRoot | lib/api.ts:52 | Joining a relative path of plain segments onto an absolute folder appends its segments. |
| NodePath.BaseNameOfRendered | lib/api.ts:68 | The `basename` of an absolute path of plain segments is its last segment, with the extension cut when it ends with it. |
| NodePath.CanonicalIsNormal | lib/api.ts:162 | A canonical slug is its own normal form. |
| NodePath.UpsCancelPlain | lib/api.ts:162 | As many `..` as plain segments cancel them all. |
| NodePath.LeadingUpStays | lib/api.ts:162 | A relative path that starts above the root stays above it, whatever follows. |
| NodePath.ClimbAboveRoot | lib/api.ts:162 | More leading `..` than folders leaves a leading `..`. |
| NodePath.AboveRootNotCanonical | lib/api.ts:162 | A path starting with `..` is not a canonical slug. |
| NodePath.NormalizeKeepsLeadingUp | lib/api.ts:162 | If the resolved segments start with `..`, the normalised path starts above the root. |
| Slugs.StripMd | lib/api.ts:163 | `.replace(/\.md$/, "")` removes exactly one trailing `.md` and changes nothing else. |
| Slugs.StripMdAppended | lib/api.ts:163 | Stripping `x + ".md"` gives `x`. |
| Slugs.NoteDir | lib/api.ts:162 | `slug.split(sep).slice(0, -1)` is every segment of the slug but the last. None of them contains the separator. |
| Slugs.GetSlugFromHref | lib/api.ts:160-164 | The slug is never longer than the joined path. A joined path without `%` is only stripped of its `.md`. |
| Slugs.SlugFromHrefThrows | lib/api.ts:160-164 | `getSlugFromHref` throws exactly when the joined path is not well escaped: a `%` without two hexadecimal digits, or escapes that are not well-formed UTF-8. |
| Slugs.NoteDirOfJoin | lib/api.ts:162 | The folder of `dir/name` is `dir`. |
| Slugs.RootNoteResolves | lib/api.ts:160-164 | From a note at the root, a target resolves to its own normal form, decoded and stripped of `.md`. |
| Slugs.ParentFolderLink | lib/api.ts:160-164 | From `d/name`, the target `../b` resolves to `b`. |
| Slugs.ParentFolderExample | lib/api.ts:160-164 | `getSlugFromHref("folder/a", "../b")` is `b`. |
| Slugs.ResolvesInNoteFolder | lib/api.ts:160-164 | A canonical target is resolved by appending its segments to the note's folder, then decoding and stripping `.md`. |
| Slugs.RootNoteResolvesCanonical | lib/api.ts:160-164 | From a note at the root, a canonical target and the same target with `.md` both resolve to the target. |
| Slugs.RootNoteResolvesPlain | lib/api.ts:160-164 | From a note at the root, a canonical target resolves to itself. |
| Slugs.RootNoteResolvesMd | lib/api.ts:160-164 | From a note at the root, a canonical target with `.md` resolves to the target. |
| Slugs.NestedSelfResolution | lib/api.ts:160-164 | A nested note linking to its own slug resolves to the slug under its folder again. |
| Slugs.NestedSelfExample | lib/api.ts:160-164 | `getSlugFromHref("folder/a", "folder/a")` is `folder/folder/a`. |
| Slugs.EscapingJoin | lib/api.ts:162 | A target with more leading `..` than the note has folders joins to a path above the root. |
| Slugs.EscapingLinkIsNotCanonical | lib/api.ts:160-164 | Such a target either throws or resolves to a slug above the root, which is never canonical. |
| Slugs.ParseSlug | lib/utils/parseSlug.ts:11-22 | A string gives its normal form. An array gives `path.join` of its items in order. The result is always normalised. |
| Slugs.PathJoinIsNormal | lib/utils/parseSlug.ts:22 | The result of `path.join` is its own normal form. |
| Slugs.ParseSlugRoundTrip | lib/utils/parseSlug.ts:22 | Joining the segments of a canonical slug gives the slug back. |
| Excerpt.GetMDExcerpt | lib/markdownToHtml.ts:88-94 | The excerpt is at most `length` characters long and has no whitespace at either end. It is the trim of the `length`-character prefix of the stripped text. |
| Excerpt.ShortTextIsItsOwnExcerpt | lib/markdownToHtml.ts:88-94 | A stripped text that is short enough and already trimmed is its own excerpt. |
| Posts.Or | lib/api.ts:63 | `data[key] \|\| fallback`: the value when it is present and non-empty, the fallback otherwise. |
| Posts.OrEmpty | lib/api.ts:60-61 | `data[obj]?.field \|\| ""`: the empty string when the object is missing. |
| Posts.ParseFileToObj | lib/api.ts:51-72 | Parsing fails exactly when the file is missing, or when there is no title and the file name does not decode (a bad `%` or escapes that are not well-formed UTF-8). On success the slug and the body are the note's. |
| Posts.ParsedFieldsDefault | lib/api.ts:56-69 | Front-matter values win when truthy: the date, the excerpt and the title. Otherwise the date falls back to `""` and the excerpt to `getMDExcerpt(content, 500)`. The author's name and picture and the image URL each read `data[obj]?.field \|\| ""` on their own, so a present object with a missing field still gives `""` for that field. |
| Posts.ParsedFallbackTitle | lib/api.ts:68 | A note without a title is titled by its decoded file name. |
| Posts.FileNameOfFullPath | lib/api.ts:52-68 | For a canonical slug under an absolute notes folder, the `basename` of the full path without `.md` is the slug's last segment. |
| Posts.FullPathRendered | lib/api.ts:52 | `path.join(mdDir, slug + ".md")` is the folder's segments followed by the slug's, the last ending in `.md`. |
| Posts.Pick | lib/api.ts:31-34 | The record has exactly the requested fields, each as the post has it. |
| Posts.PickTitleContent | lib/markdownToHtml.ts:30 | Picking `title` and `content` gives exactly those two fields, as text. |
| Posts.GetPostBySlug | lib/api.ts:23-37 | One trailing `.md` is stripped from the slug. The call fails exactly when parsing fails, and otherwise returns exactly the requested fields of the parsed post. |
| Posts.PostBySlug | lib/api.ts:23-37 | `getPostBySlug` as a value: it fails exactly when parsing the slug without `.md` fails, and otherwise picks the requested fields of the parsed post. |
| Posts.SelectFields | lib/api.ts:31-35 | The `forEach` loop copies exactly the requested fields. |
| Posts.SlugSuffixIgnored | lib/api.ts:27 | `a` and `a.md` name the same post. |
| Posts.LoadAll | lib/api.ts:84 | Loading succeeds exactly when every post loads, and keeps the order of the paths. |
| Posts.InsertKeepsElements | lib/api.ts:85 | Insertion, one step of the sort, adds exactly the one record. |
| Posts.InsertKeepsOrder | lib/api.ts:85 | Insertion keeps a list newest first. |
| Posts.SortByDateDescIsSorted | lib/api.ts:85 | The sort returns a permutation of its input, newest first. |
| Posts.InsertKeepsTies | lib/api.ts:85 | Insertion puts the record in front of the records of its own date, and leaves other dates alone. |
| Posts.SortKeepsTies | lib/api.ts:85 | Records with the same date keep their input order. |
| Posts.UndatedLast | lib/api.ts:85 | In a newest-first list, undated records come after every dated one. |
| Posts.GetAllPosts | lib/api.ts:81-88 | The call fails exactly when some post fails to load. Otherwise it returns a permutation of the loaded posts, `date` added to the fields, newest first, with the records of each date in the order of their paths. |
| Posts.AllPostsCarryDate | lib/api.ts:84 | Every record carries `date` and every requested field. |
| LinkRegex.RunEnd | lib/api.ts:108 | A character-class run `[^…]*` stops at the first excluded character. |
| LinkRegex.LastIndexIn | lib/markdownToHtml.ts:53-54 | The last position of a character in a range, if there is one. |
| LinkRegex.LinkEnd | lib/api.ts:108 | A match of the link pattern ends after where it starts, within the text. |
| LinkRegex.DelimiterEnd | lib/markdownToHtml.ts:53-54 | A match of a delimiter pattern ends after where it starts, within the text. |
| LinkRegex.LinkEndIsLink | lib/api.ts:108 | A match of the link pattern is `[`, at least `minText` characters other than brackets, `](`, a non-empty target without parentheses, then `)`. |
| LinkRegex.DelimiterEndIsLongest | lib/markdownToHtml.ts:53-54 | `\begin*{.*}` matches the longest possible text: through the last `}` before the line ends. |
| LinkRegex.MatchTable | lib/api.ts:108 | The table holds the end of the match at each index. |
| LinkRegex.Scan | lib/api.ts:109 | `matchAll` returns ordered, disjoint spans, each a match of the pattern. |
| LinkRegex.ScanIsLeftmost | lib/api.ts:109 | Every index where a match starts is the start of a found match or lies inside one. |
| LinkRegex.LeftmostScanIsScan | lib/api.ts:109 | Any ordered list of matches that skips no match start is the scan. |
| LinkRegex.ScanCharacterized | lib/api.ts:109 | A list is the `matchAll` result exactly when it is a leftmost scan. |
| LinkRegex.Splice | lib/api.ts:174 | Splicing removes exactly the covered characters and inserts exactly the replacements: the lengths add up. |
| LinkRegex.DeleteSpans | lib/api.ts:174 | Deleting spans removes exactly the covered characters. |
| LinkRegex.SpliceUnchanged | lib/api.ts:174 | Replacing each match by its own text changes nothing. |
| LinkRegex.DeleteSpansShrinks | lib/api.ts:174 | Deleting spans never makes the text longer. |
| LinkRegex.NothingDeleted | lib/api.ts:174 | Deleting no span changes nothing. |
| LinkRegex.SpliceShift | lib/api.ts:174 | Splicing from an earlier index keeps the text in between. |
| LinkRegex.SpliceDeletesInner | lib/api.ts:174 | Replacing each match by its text without an inner span is deleting those inner spans. |
| LinkRegex.LinkTarget | lib/api.ts:112 | Group 1 of a link match is non-empty and has no parenthesis. |
| LinkRegex.LinkTargets | lib/api.ts:108-112 | Every extracted target is non-empty and has no parenthesis. |
| LinkGraph.Put | lib/api.ts:117 | Setting a property updates the value, and a new key goes to the end of the key order. |
| LinkGraph.FromEntries | lib/api.ts:101-104 | `new Map(pairs)` has exactly the keys of the pairs, and the last pair for a key wins. |
| LinkGraph.EntryKeysCome | lib/api.ts:101-104 | Every key comes from a pair. |
| LinkGraph.Resolutions | lib/api.ts:111-112 | Each target is resolved through `getSlugFromHref`. |
| LinkGraph.FilterKnown | lib/api.ts:110-116 | The kept slugs are exactly the known ones among the resolutions. The list fails exactly when some target throws, through a bad `%` or escapes that are not well-formed UTF-8. |
| LinkGraph.FilterKnownAppend | lib/api.ts:110-116 | Filtering keeps match order and repeats: filtering two runs is filtering each and concatenating. |
| LinkGraph.FilterKnownStep | lib/api.ts:113-115 | One more resolved target is pushed exactly when it is a known slug. |
| LinkGraph.FilterKnownOne | lib/api.ts:113-115 | A single target contributes its slug when known, and nothing otherwise. |
| LinkGraph.FailedTargetFails | lib/api.ts:112 | One target that does not decode makes the whole note throw. |
| LinkGraph.EscapingTargetDropped | lib/api.ts:112-115 | In a corpus of canonical slugs, a target that climbs above the root contributes no link. |
| LinkGraph.NoteLinks | lib/api.ts:108-116 | A note's links exist exactly when every target of its body resolves, and then name notes of the corpus only. |
| LinkGraph.NoteLinkSlugs | lib/api.ts:110-116 | The inner loop returns the filtered resolutions, or the first target that throws. |
| LinkGraph.GetLinksMapping | lib/api.ts:99-121 | Building the graph succeeds exactly when every note's targets decode and no note is named `size`. The result has no `Map` entries and one property per note, in note order, holding its resolved links. |
| LinkGraph.BuildLinksMapping | lib/api.ts:107-118 | The outer loop sets each note's links. It fails exactly when some note's targets throw or some note is named `size`. |
| LinkGraph.SetNoteLinks | lib/api.ts:108-117 | One round: the note's links are stored under its slug and no other property changes. The round throws exactly when a target throws or the slug is `size`, and for `size` with the read-only error. |
| LinkGraph.BuiltGraphAvoidsReadOnlyKey | lib/api.ts:107-118 | In a graph built from a corpus with no note named `size`, which every successful build has, no note links to `size`: every link names a note. |
| LinkGraph.BuiltAll | lib/api.ts:107-118 | After every round, every note's links are set. |
| LinkGraph.FilterLinksTo | lib/api.ts:135-137 | The filter keeps exactly the keys that link to the slug, other than the slug itself. |
| LinkGraph.GetBacklinks | lib/api.ts:131-137 | `k` is a backlink of `s` exactly when `k` is a key whose list includes `s` and `k` differs from `s`. |
| LinkGraph.NoSelfBacklink | lib/api.ts:136 | A note is never its own backlink. |
| LinkGraph.FilterLinksToDistinct | lib/api.ts:135 | Filtering distinct keys lists each backlink once. |
| LinkGraph.BacklinksDistinct | lib/api.ts:131-137 | `getBacklinks` lists each backlink once. |
| LinkGraph.GetOutgoingLinksAsWritten | lib/api.ts:147-150 | `linkMapping.get(slug) \|\| []` reads the `Map` entries. It throws exactly when an own property named `get`, such as the links of a note named `get`, hides `Map.prototype.get`. |
| LinkGraph.OutgoingAsWrittenIsEmpty | lib/api.ts:117 | On a graph built by `getLinksMapping`, the code as written finds no outgoing links, and it throws for every slug when the corpus has a note named `get`. |
| LinkGraph.GetOutgoingLinks | lib/api.ts:147-150 | The stored list for the slug, or the empty list when the slug has none. |
| LinkGraph.BacklinksTranspose | lib/api.ts:131-150 | `a` is a backlink of `b` exactly when `b` is an outgoing link of `a` and `a ≠ b`. |
| LinkGraph.OutgoingLinksOfBuiltGraph | lib/api.ts:107-118 | On a built graph, a note's outgoing links are its resolved known links. |
| Rewrite.MdSpans | lib/api.ts:174 | The matches of the `.md`-link pattern, ordered and disjoint. |
| Rewrite.MdSpanShape | lib/api.ts:174 | Each such match ends with `.md)`. |
| Rewrite.Extensions | lib/api.ts:174 | The `.md` group of each match sits just before its closing `)`. |
| Rewrite.MdReplacements | lib/api.ts:174 | `$1$3` is the match without its `.md` group. |
| Rewrite.StripLinkMd | lib/api.ts:174 | The `.md` pass deletes exactly the `.md` groups. |
| Rewrite.StrippedPiecesAreMd | lib/api.ts:174 | Each deleted piece is a `.md` followed by the closing `)` of a link. |
| Rewrite.NoMdLinkUnchanged | lib/api.ts:174 | Text without such a link is unchanged. |
| Rewrite.SlugDir | lib/api.ts:180 | The note's folder, as `path.join` renders it. |
| Rewrite.RelLink | lib/api.ts:181-184 | The target is kept when it starts with the folder as text, and joined onto the folder otherwise. |
| Rewrite.SiblingFolderTakenAsRelative | lib/api.ts:182 | A target in a sibling folder whose name extends the note's folder is kept as written. |
| Rewrite.AssetGroups | lib/api.ts:178 | The three groups of an asset match make up the match. The target is non-empty and has no parenthesis. |
| Rewrite.AssetReplacement | lib/api.ts:179-196 | The replacer throws exactly when either probed path is badly escaped. Otherwise it returns the match unchanged or a link into the asset folder. |
| Rewrite.AssetReplacementSelects | lib/api.ts:186-195 | `fs.existsSync` on the decoded paths chooses the result: a file under the note's folder gives the asset link through `relLink`. Failing that, a file under the notes folder gives the asset link through the target as written. With neither, the match is kept. |
| Rewrite.AssetSpans | lib/api.ts:177-178 | The matches of the asset pattern, ordered and disjoint. |
| Rewrite.AssetOutcomes | lib/api.ts:177-197 | The replacer's outcome for each match, in order. |
| Rewrite.SpliceOutcomesIsSplice | lib/api.ts:177-197 | The pass throws when some replacer throws. Otherwise it splices the replacements into the text. |
| Rewrite.RewriteAssetLinks | lib/api.ts:177-197 | The asset pass succeeds exactly when every replacer does, and the result is the splice of the replacements. |
| Rewrite.NoAssetsUnchanged | lib/api.ts:188-195 | Where no asset exists and every path decodes, the asset pass changes nothing. |
| Rewrite.RewriteMarkdownLinks | lib/api.ts:172-199 | The result is the asset pass applied to the text with the `.md` groups deleted. |
| Render.HastNode.constructor | lib/markdownToHtml.ts:110 | A new node holds the given kind, tag, properties, children and text. |
| Render.TextSpan | components/misc/note-preview.tsx:9-14 | A fresh `span` of the given class, holding the text, or nothing when the text is empty. |
| Render.CreateNoteNode | lib/markdownToHtml.ts:96-103 | A fresh card: a `span` of the preview class holding the title line and the excerpt line, and nothing else. |
| Render.CardHasNoAnchor | lib/markdownToHtml.ts:96-103 | A card holds no anchor: only two `span`s of text, so transclusion is one level deep. |
| Render.CardSlugs | lib/markdownToHtml.ts:27 | `getLinksMapping()[currSlug]` is present exactly when the note is a key, and is then its outgoing links. |
| Render.CardSource | lib/markdownToHtml.ts:30 | The title and the body of `getPostBySlug(l, ["title", "content"])`, which fails exactly when that call fails. |
| Render.BuildCards | lib/markdownToHtml.ts:28-33 | One card per linked note, under its slug, and no other key. Each card is the card of that note's title and excerpt. The loop fails exactly when some round fails, at the first such round: a note that cannot be read, or a card stored under `size`. |
| Render.BuildLinkNodeMapping | lib/markdownToHtml.ts:27-33 | Building the cards fails exactly when the note has no links entry, a linked note fails, or a link is `size`. Otherwise the keys are exactly the outgoing links, each with its note's card. |
| Render.CardLookupAsWritten | lib/markdownToHtml.ts:108 | `linkNodeMapping[slug]` finds the stored card, or an inherited member for a prototype name, or nothing. |
| Render.InheritedNameFindsNonCard | lib/markdownToHtml.ts:108-109 | The slug `constructor` finds a truthy value that is not a card. |
| Render.CardLookup | lib/markdownToHtml.ts:108 | A card is found exactly when one is stored under the slug. |
| Render.LookupsAgreeOffPrototype | lib/markdownToHtml.ts:108 | Off the prototype names, the lookup as written and the corrected lookup agree. |
| Render.Decide | lib/markdownToHtml.ts:105-109 | An anchor is transcluded exactly when its link resolves to a slug with a card. It throws exactly when it has no `href` or the `href` does not decode. Non-anchors are left alone. |
| Render.TranscludesExactlyLinkedNotes | lib/markdownToHtml.ts:27-33 | With the cards of `currSlug`, an anchor is transcluded exactly when it resolves to one of the notes `currSlug` links to. |
| Render.RewriteLinkNodes | lib/markdownToHtml.ts:105-117 | A transcluded anchor becomes a `span` of class `internal-link-container`. Its two children are a copy of the anchor, re-classed `internal-link`, and the card. Any other node is unchanged. A missing or undecodable `href` throws. The card is found with the corrected `CardLookup`, so an `href` resolving to `constructor` leaves the anchor unchanged, where the code as written rewrites it (Findings, second row). |
| Render.LeadingChars | lib/markdownToHtml.ts:70 | The first character of each match. |
| Render.DelimiterMatchStart | lib/markdownToHtml.ts:53-54 | A delimiter match starts with the pattern's first character. |
| Render.MatchesStartAtBackslash | lib/markdownToHtml.ts:53-54 | Every `\begin…{…}` and `\end…{…}` match starts with a backslash. |
| Render.WithoutFirst | lib/markdownToHtml.ts:70 | `subs.replace("\\", "")` on a match that starts with a backslash is the match without its first character. |
| Render.LeadingCharsOrdered | lib/markdownToHtml.ts:69-71 | The first characters of ordered matches are ordered spans too. |
| Render.DropLeadingBackslash | lib/markdownToHtml.ts:69-71 | Replacing each match by `subs.replace("\\", "")` is deleting exactly the first character, the backslash, of each match. |
| Render.NoBackslashNoDrop | lib/markdownToHtml.ts:69-71 | Text without a backslash is unchanged by the delimiter pass. |
| Render.UnescapeSymbols | lib/markdownToHtml.ts:55-66 | Unescaping `\_`, `\*`, `\>` and `\<` never lengthens the text and leaves text without a backslash alone. |
| Render.UnescapeDelimiters | lib/markdownToHtml.ts:53-72 | The leading backslash of each `\begin…{…}` match is deleted, then that of each `\end…{…}` match in the result. The text never grows, and text without a backslash is unchanged. |
| Render.UnescapeMath | lib/markdownToHtml.ts:53-72 | The unescape of one child's text is the four symbol passes, then the deletion of the leading backslash of each `\begin…{…}` match, then of each `\end…{…}` match. It never lengthens the text and leaves text without a backslash alone. |
| Render.UnescapesSymbol | lib/markdownToHtml.ts:65 | `x\_y` becomes `x_y` when `x` and `y` have no backslash. |
| Render.RewriteChildTexts | lib/markdownToHtml.ts:50-73 | Each child's text is rewritten in order. At the first child with no text the loop throws, with the children before it rewritten and the rest untouched. |
| Render.UnescapeMathChildren | lib/markdownToHtml.ts:50-73 | The children of a math node all go through the unescape pass, or the pass throws at the first non-text child. |
| Render.RewriteSelected | lib/markdownToHtml.ts:45-76 | An anchor takes the `rewriteLinkNodes` branch with its full outcome: rewritten or throwing exactly as `Decide` says, the new node and the fresh anchor copy as `RewriteLinkNodes` states, and unchanged otherwise. A math node keeps its kind, tag, properties, text and children list. It is unchanged in outcome exactly when every child is text, each child's text is then unescaped, and when it throws the children before the first non-text child are unescaped and the rest untouched. Other nodes are unchanged. |

## Left out

- The filesystem is not modelled. `fs.readFileSync` becomes a map `Files` from full paths to parsed notes. `fs.existsSync` becomes the parameter `fileExists`. The directory walk of `getFilesRecursively` becomes the list of note paths passed to `GetAllPosts`.
- `process.cwd()`, `COMMON_MD_DIR` and `MD_ASSET_DIR`, and `path.relative("./public", …)`, are not computed. The notes folder and the asset folder are parameters.
- `gray-matter` is not modelled. A note arrives already split into front matter, kept as a map of scalar fields plus the author and image objects, and a body. YAML values other than strings, such as a date that YAML reads as a `Date`, are not modelled.
- `removeMd` is an arbitrary function parameter. `getMDExcerpt` is proved for every such function.
- Strings are sequences of Unicode code points. A character above U+FFFF is one character here, where JavaScript stores two UTF-16 code units. This affects `decodeURI` of four-byte sequences, string lengths and the `>` comparison of such characters.
- The unified, remark and rehype pipeline is not modelled: parsing, `rehype-raw`, `rehype-pretty-code`, MathJax and stringifying. `rehype-rewrite` is modelled per selected node by `Render.RewriteSelected`. The walk over the whole tree and its order are not modelled. The pipeline's async failure is the `Threw` outcome.
- `renderToStaticMarkup` and `fromHtml` are replaced by building the card's `span` directly. `fromHtml` is called without `{ fragment: true }`, so it parses a whole document: the card the code stores is `root` > `html` > (`head`, `body` > `span`…), and that whole tree hangs under the anchor. The model stores only the `span`. HTML escaping of the text is not modelled.
- `className`, which `hast` keeps as a list of class names, is modelled as one string.
- `Render.CreateNoteNode`: the excerpt function is a parameter, `getMDExcerpt` at length 500 in `BuildLinkNodeMapping`.
- `Render.BuildCards`: the loader is a parameter, `getPostBySlug(l, ["title", "content"])` in `BuildLinkNodeMapping`. Its contract does not state that the cards are fresh objects.
- `Render.RewriteChildTexts`: requires the children of the node to be distinct objects. A tree from the parser has no shared child, and the source does not check this.
- `Render.UnescapeMathChildren`: requires the same distinct-children condition.
- `Render.RewriteSelected`: requires the same distinct-children condition.
- `Render.UnescapeSymbols`: states only that the text never grows and that text without a backslash is unchanged. What each replacement does is stated by `JsStrings.ReplaceAllIsSplitJoin` and `Render.UnescapesSymbol`.
- `Render.UnescapeMath`: states the four symbol passes through `Render.UnescapeSymbols`, whose own contract is the weaker one above; each symbol pass is `split(pat).join(rep)` by `JsStrings.ReplaceAllIsSplitJoin`. The two delimiter passes are stated exactly, through `Render.DropLeadingBackslash` and `Render.UnescapeDelimiters`.
- `Object.keys` orders integer-like keys first. The model keeps insertion order for every key.
- Assigning under the key `__proto__` changes an object's prototype instead of adding a key. This is not modelled, for `linksMapping[slug]` (lib/api.ts:117) nor for `linkNodeMapping[l]` (lib/markdownToHtml.ts:32). A card stored under `__proto__` would replace the prototype of the `Map`, which changes what `Render.CardLookupAsWritten` finds for inherited names.
- The order `Array.prototype.sort` gives to equal dates is left to the engine; the model uses the stable order.
- The `allowed` field of a post is never set by `parseFileToObj`. The model reads it as `undefined`.
- `markdownToHtml` as a whole is not modelled. As written it throws at lib/markdownToHtml.ts:24, because `updateMarkdownLinks` is not exported by `lib/api.ts`. The `Render` members model lines 27-117 as they would run past that call.
- The React components and the pages are not part of this model, apart from the card markup of `note-preview.tsx`.

## Findings

| source | as written | input that shows it | evidently intended | confidence | as-written member | corrected member |
|---|---|---|---|---|---|---|
| lib/api.ts:117 and lib/api.ts:150 | `getLinksMapping` stores each list as a property (`linksMapping[slug] = …`), but `getOutgoingLinks` reads `Map` entries with `.get` | any corpus in which note `a` links to note `b` and no note is named `get`: `getOutgoingLinks(getLinksMapping(), "a")` returns `[]` | the stored list of `a`, `["b"]`, read from the same dictionary `getBacklinks` reads | not executed | LinkGraph.OutgoingAsWrittenIsEmpty | LinkGraph.GetOutgoingLinks |
| lib/markdownToHtml.ts:108 | `linkNodeMapping[slug]` is a property read on a `Map` object, so it also finds the names `Map` and `Object` inherit | an anchor whose `href` is `constructor`, in a note at the root with no card stored under that name: the lookup finds the inherited `Map` constructor, which is truthy, and the anchor gets a function as its second child | only the cards stored for the note's own links are found | not executed | Render.InheritedNameFindsNonCard | Render.CardLookup |
