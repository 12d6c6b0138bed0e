/**
 * The regular expressions the core applies with the `g` flag, and what
 * `matchAll` / `replaceAll` do with them: scan left to right, take the match
 * that starts leftmost, continue after its end.
 *
 *   /\[[^\[\]]+\]\(([^\(\)]+)\)/g              markdown links (the link graph)
 *   /(\[[^\[\]]+\]\([^\(\)]+)(\.md)(\))/g      links whose target ends in `.md`
 *   /(\[[^\[\]]*\]\()([^\(\)]+)(\))/g          links, possibly with empty text (assets)
 *   /\\begin*{.*}/g and /\\end*{.*}/g          math environment delimiters
 *
 * None of these can match in more than one way at a given index (each
 * character class stops at the very character that must follow it, and the
 * greedy `.*}` ends at the last `}` of the line), so a match is a function
 * of its start index.
 */
module LinkRegex {
  import opened Wrappers
  import opened JsStrings

  /** A match occupies `s[start..end]`. */
  datatype Span = Span(start: nat, end: nat)

  const Brackets: set<char> := {'[', ']'}
  const Parens: set<char> := {'(', ')'}
  /** The characters `.` does not match: LineTerminator of ECMA-262. */
  const LineTerminators: set<char> := {'\n', '\r', '\U{2028}', '\U{2029}'}

  /** The first index at or after `i` holding a character of `stop`, or `|s|`. */
  function RunEnd(s: string, i: nat, stop: set<char>): (j: nat)
    requires i <= |s|
    ensures i <= j <= |s|
    ensures forall k :: i <= k < j ==> s[k] !in stop
    ensures j < |s| ==> s[j] in stop
    decreases |s| - i
  {
    if i == |s| || s[i] in stop then i else RunEnd(s, i + 1, stop)
  }

  /** The index just past the run of `c` that starts at `i`. */
  function RepeatEnd(s: string, i: nat, c: char): (j: nat)
    requires i <= |s|
    ensures i <= j <= |s|
    ensures forall k :: i <= k < j ==> s[k] == c
    ensures j < |s| ==> s[j] != c
    decreases |s| - i
  {
    if i == |s| || s[i] != c then i else RepeatEnd(s, i + 1, c)
  }

  /** The last index in `[lo, hi)` holding `c`. */
  function LastIndexIn(s: string, lo: nat, hi: nat, c: char): (r: Option<nat>)
    requires lo <= hi <= |s|
    ensures r.Some? ==> lo <= r.value < hi && s[r.value] == c
    ensures r.Some? ==> forall k :: r.value < k < hi ==> s[k] != c
    ensures r.None? ==> forall k :: lo <= k < hi ==> s[k] != c
    decreases hi - lo
  {
    if lo == hi then None
    else if s[hi - 1] == c then Some(hi - 1)
    else LastIndexIn(s, lo, hi - 1, c)
  }

  /**
   * `Link(minText, mdTarget)`: `\[[^\[\]]{minText,}\]\([^\(\)]+\)`, and with
   * `mdTarget` the target must end in `.md` after at least one character.
   * `Delimiter(prefix, c)`: the literal `prefix`, then `c*`, then `{.*}`.
   */
  datatype Pattern =
    | Link(minText: nat, mdTarget: bool)
    | Delimiter(prefix: string, repeated: char)

  /** `/\[[^\[\]]+\]\(([^\(\)]+)\)/g` */
  const LinkGraphPattern: Pattern := Link(1, false)
  /** `/(\[[^\[\]]+\]\([^\(\)]+)(\.md)(\))/g` */
  const MdTargetPattern: Pattern := Link(1, true)
  /** `/(\[[^\[\]]*\]\()([^\(\)]+)(\))/g` */
  const AssetLinkPattern: Pattern := Link(0, false)
  /** `/\\begin*{.*}/g` */
  const BeginPattern: Pattern := Delimiter("\\begi", 'n')
  /** `/\\end*{.*}/g` */
  const EndPattern: Pattern := Delimiter("\\en", 'd')

  /** Index of the `]` that must close the text of a link starting at `i`. */
  function LinkTextEnd(s: string, i: nat): (te: nat)
    requires i < |s|
    ensures i < te <= |s|
  {
    RunEnd(s, i + 1, Brackets)
  }

  /** The end of the link match starting at `i`, if there is one. */
  function LinkEnd(s: string, i: nat, minText: nat, mdTarget: bool): (r: Option<nat>)
    requires i < |s|
    ensures r.Some? ==> i < r.value <= |s|
  {
    if s[i] != '[' then None
    else
      var te := LinkTextEnd(s, i);
      if te - (i + 1) < minText || te + 1 >= |s| || s[te] != ']' || s[te + 1] != '(' then None
      else
        var close := RunEnd(s, te + 2, Parens);
        if close == te + 2 || close == |s| || s[close] != ')' then None
        else if mdTarget && !(close - (te + 2) >= 4 && s[close - 3..close] == ".md") then None
        else Some(close + 1)
  }

  /** The end of the delimiter match starting at `i`, if there is one. */
  function DelimiterEnd(s: string, i: nat, prefix: string, c: char): (r: Option<nat>)
    requires i < |s|
    ensures r.Some? ==> i < r.value <= |s|
  {
    if !OccursAt(s, prefix, i) then None
    else
      var brace := RepeatEnd(s, i + |prefix|, c);
      if brace == |s| || s[brace] != '{' then None
      else
        var lineEnd := RunEnd(s, brace + 1, LineTerminators);
        match LastIndexIn(s, brace + 1, lineEnd, '}')
        case None => None
        case Some(k) => Some(k + 1)
  }

  /** Where a match of `p` starting at `i` ends, if `p` matches at `i`. */
  function MatchEnd(p: Pattern, s: string, i: nat): (r: Option<nat>)
    ensures r.Some? ==> i < r.value <= |s|
  {
    if i >= |s| then None
    else match p
      case Link(minText, md) => LinkEnd(s, i, minText, md)
      case Delimiter(prefix, c) => DelimiterEnd(s, i, prefix, c)
  }

  // ---------------------------------------------------------------------
  // What a match is, independently of how it is found

  /**
   * `s[i..e]` reads `[text](target)` with the `]` at `te`: a text of at
   * least `minText` characters none of which is a bracket, a non-empty target
   * none of whose characters is a parenthesis, and with `mdTarget` a target
   * that ends in `.md` after at least one character.
   */
  predicate IsLinkAt(s: string, i: nat, te: nat, e: nat, minText: nat, mdTarget: bool)
  {
    && i < te && te + 2 < e - 1 && e <= |s|
    && s[i] == '[' && te - (i + 1) >= minText
    && (forall k :: i < k < te ==> s[k] !in Brackets)
    && s[te] == ']' && s[te + 1] == '('
    && (forall k :: te + 2 <= k < e - 1 ==> s[k] !in Parens)
    && s[e - 1] == ')'
    && (mdTarget ==> e - 1 - (te + 2) >= 4 && s[e - 4..e - 1] == ".md")
  }

  /** `LinkEnd` finds a link exactly when there is one, and it is the only one. */
  lemma LinkEndIsLink(s: string, i: nat, minText: nat, mdTarget: bool)
    requires i < |s|
    ensures LinkEnd(s, i, minText, mdTarget).Some? ==>
      IsLinkAt(s, i, LinkTextEnd(s, i), LinkEnd(s, i, minText, mdTarget).value, minText, mdTarget)
    ensures forall te: nat, e: nat :: IsLinkAt(s, i, te, e, minText, mdTarget) ==>
      te == LinkTextEnd(s, i) && LinkEnd(s, i, minText, mdTarget) == Some(e)
  {
    forall te: nat, e: nat | IsLinkAt(s, i, te, e, minText, mdTarget)
      ensures te == LinkTextEnd(s, i) && LinkEnd(s, i, minText, mdTarget) == Some(e)
    {
      var te' := LinkTextEnd(s, i);
      assert te' == te;
      var close := RunEnd(s, te + 2, Parens);
      assert close == e - 1;
    }
  }

  /** `s[i..e]` reads `prefix c* {` then a line without line terminators, ending in `}`. */
  ghost predicate IsDelimiterAt(s: string, i: nat, e: nat, prefix: string, c: char)
  {
    && OccursAt(s, prefix, i)
    && i + |prefix| < e <= |s|
    && s[e - 1] == '}'
    && exists brace: nat :: IsDelimiterBrace(s, i, brace, e, prefix, c)
  }

  /** The `{` of a delimiter match `s[i..e]` sits at `brace`. */
  predicate IsDelimiterBrace(s: string, i: nat, brace: nat, e: nat, prefix: string, c: char)
  {
    && i + |prefix| <= brace < e - 1 && e <= |s|
    && (forall k :: i + |prefix| <= k < brace ==> s[k] == c)
    && s[brace] == '{' && c != '{'
    && (forall k :: brace < k < e ==> s[k] !in LineTerminators)
  }

  /**
   * `DelimiterEnd` returns a match, and the longest one: the greedy `.*`
   * reaches the last `}` before the end of the line.
   */
  lemma DelimiterEndIsLongest(s: string, i: nat, prefix: string, c: char)
    requires i < |s|
    ensures DelimiterEnd(s, i, prefix, c).Some? ==> IsDelimiterAt(s, i, DelimiterEnd(s, i, prefix, c).value, prefix, c)
    ensures forall e: nat :: IsDelimiterAt(s, i, e, prefix, c) ==>
      DelimiterEnd(s, i, prefix, c).Some? && e <= DelimiterEnd(s, i, prefix, c).value
  {
    var r := DelimiterEnd(s, i, prefix, c);
    if r.Some? {
      var brace := RepeatEnd(s, i + |prefix|, c);
      assert IsDelimiterBrace(s, i, brace, r.value, prefix, c);
    }
    forall e: nat | IsDelimiterAt(s, i, e, prefix, c)
      ensures r.Some? && e <= r.value
    {
      var brace: nat :| IsDelimiterBrace(s, i, brace, e, prefix, c);
      var b' := RepeatEnd(s, i + |prefix|, c);
      assert b' == brace;
      var lineEnd := RunEnd(s, brace + 1, LineTerminators);
      assert e - 1 < lineEnd;
    }
  }

  // ---------------------------------------------------------------------
  // Global matching

  /** Spans inside `[from, n]`, in order and pairwise disjoint. */
  predicate Ordered(spans: seq<Span>, from: nat, n: nat)
  {
    && (forall k :: 0 <= k < |spans| ==> from <= spans[k].start <= spans[k].end <= n)
    && (forall j, k :: 0 <= j < k < |spans| ==> spans[j].end <= spans[k].start)
  }

  /**
   * `m[j]` is where a match starting at `j` ends, if one does: the match
   * table of a pattern over a string of length `|m|`.
   */
  predicate IsMatchTable(m: seq<Option<nat>>)
  {
    forall j :: 0 <= j < |m| && m[j].Some? ==> j < m[j].value <= |m|
  }

  /** Where `p` matches at each index of `s`. */
  function MatchTable(p: Pattern, s: string): (m: seq<Option<nat>>)
    ensures |m| == |s| && IsMatchTable(m)
    ensures forall j :: 0 <= j < |s| ==> m[j] == MatchEnd(p, s, j)
  {
    seq(|s|, j requires 0 <= j < |s| => MatchEnd(p, s, j))
  }

  /**
   * The matches a `g`-flagged regular expression finds from index `i` on:
   * the leftmost match, then the matches after its end.
   */
  function ScanTable(m: seq<Option<nat>>, i: nat): (r: seq<Span>)
    requires IsMatchTable(m) && i <= |m|
    ensures Ordered(r, i, |m|)
    ensures forall k :: 0 <= k < |r| ==> r[k].start < |m| && m[r[k].start] == Some(r[k].end)
    decreases |m| - i
  {
    if i == |m| then []
    else match m[i]
      case Some(e) => [Span(i, e)] + ScanTable(m, e)
      case None => ScanTable(m, i + 1)
  }

  /** `matchAll(p)` on `s` from index `i`. */
  function Scan(p: Pattern, s: string, i: nat): (r: seq<Span>)
    requires i <= |s|
    ensures Ordered(r, i, |s|)
    ensures forall k :: 0 <= k < |r| ==> MatchEnd(p, s, r[k].start) == Some(r[k].end)
  {
    ScanTable(MatchTable(p, s), i)
  }

  /** Index `j` lies inside one of `spans`. */
  predicate Covered(spans: seq<Span>, j: nat)
  {
    exists k :: 0 <= k < |spans| && spans[k].start <= j < spans[k].end
  }

  /** The spans are real matches in order, and no index where a match starts is skipped. */
  predicate IsLeftmostScan(m: seq<Option<nat>>, i: nat, r: seq<Span>)
  {
    && Ordered(r, i, |m|)
    && (forall k :: 0 <= k < |r| ==> r[k].start < |m| && m[r[k].start] == Some(r[k].end))
    && (forall j: nat :: i <= j < |m| && m[j].Some? ==> Covered(r, j))
  }

  /** Every index where the pattern matches is the start of, or inside, a found match. */
  lemma {:induction false} ScanIsLeftmost(m: seq<Option<nat>>, i: nat)
    requires IsMatchTable(m) && i <= |m|
    ensures IsLeftmostScan(m, i, ScanTable(m, i))
    decreases |m| - i
  {
    if i < |m| {
      match m[i]
      case Some(e) =>
        ScanIsLeftmost(m, e);
        LeftmostScanCons(m, i, e, ScanTable(m, e));
      case None =>
        ScanIsLeftmost(m, i + 1);
    }
  }

  /** A match at `i` followed by a leftmost scan from its end is a leftmost scan from `i`. */
  lemma LeftmostScanCons(m: seq<Option<nat>>, i: nat, e: nat, rest: seq<Span>)
    requires IsMatchTable(m) && i < |m| && m[i] == Some(e)
    requires IsLeftmostScan(m, e, rest)
    ensures IsLeftmostScan(m, i, [Span(i, e)] + rest)
  {
    var r := [Span(i, e)] + rest;
    OrderedCons(i, e, |m|, rest);
    forall k | 0 <= k < |r| ensures r[k].start < |m| && m[r[k].start] == Some(r[k].end) {
      if k > 0 {
        assert r[k] == rest[k - 1];
      }
    }
    forall j: nat | i <= j < |m| && m[j].Some? ensures Covered(r, j) {
      CoveredCons(Span(i, e), rest, j);
    }
  }

  /** Prepending a span that ends where the ordered spans begin keeps them ordered. */
  lemma OrderedCons(i: nat, e: nat, n: nat, rest: seq<Span>)
    requires i <= e <= n && Ordered(rest, e, n)
    ensures Ordered([Span(i, e)] + rest, i, n)
  {
    var r := [Span(i, e)] + rest;
    forall k | 0 <= k < |r| ensures i <= r[k].start <= r[k].end <= n {
      if k > 0 {
        assert r[k] == rest[k - 1];
      }
    }
    forall j, k | 0 <= j < k < |r| ensures r[j].end <= r[k].start {
      assert r[k] == rest[k - 1];
      if j > 0 {
        assert r[j] == rest[j - 1];
      }
    }
  }

  /** An index covered by the first span, or by one of the rest, is covered by both together. */
  lemma CoveredCons(first: Span, rest: seq<Span>, j: nat)
    requires first.start <= j < first.end || Covered(rest, j)
    ensures Covered([first] + rest, j)
  {
    var r := [first] + rest;
    if first.start <= j < first.end {
      assert r[0] == first;
    } else {
      var k :| 0 <= k < |rest| && rest[k].start <= j < rest[k].end;
      assert r[k + 1] == rest[k];
    }
  }

  /** A leftmost scan is unique: whatever satisfies the description is the scan. */
  lemma {:induction false} LeftmostScanIsScan(m: seq<Option<nat>>, i: nat, r: seq<Span>)
    requires IsMatchTable(m) && i <= |m| && IsLeftmostScan(m, i, r)
    ensures r == ScanTable(m, i)
    decreases |m| - i, 1
  {
    if i < |m| {
      if r != [] && r[0].start == i {
        LeftmostScanIsScanAt(m, i, r);
      } else {
        LeftmostScanSkip(m, i, r);
        LeftmostScanIsScan(m, i + 1, r);
      }
    }
  }

  /** The case of a leftmost scan whose first match starts at `i`. */
  lemma {:induction false} LeftmostScanIsScanAt(m: seq<Option<nat>>, i: nat, r: seq<Span>)
    requires IsMatchTable(m) && i < |m| && IsLeftmostScan(m, i, r)
    requires r != [] && r[0].start == i
    ensures r == ScanTable(m, i)
    decreases |m| - i, 0
  {
    var e := r[0].end;
    LeftmostScanTail(m, i, r);
    LeftmostScanIsScan(m, e, r[1..]);
    assert r == [Span(i, e)] + r[1..];
  }

  lemma LeftmostScanTail(m: seq<Option<nat>>, i: nat, r: seq<Span>)
    requires IsMatchTable(m) && i < |m| && IsLeftmostScan(m, i, r)
    requires r != [] && r[0].start == i
    ensures m[i] == Some(r[0].end) && IsLeftmostScan(m, r[0].end, r[1..])
  {
    var e := r[0].end;
    var rest := r[1..];
    OrderedTail(r, i, |m|);
    forall k | 0 <= k < |rest|
      ensures rest[k].start < |m| && m[rest[k].start] == Some(rest[k].end)
    {
      assert rest[k] == r[k + 1];
    }
    forall j: nat | e <= j < |m| && m[j].Some?
      ensures Covered(rest, j)
    {
      CoveredAfterFirst(r, j);
    }
  }

  /** An index past the end of the first of some ordered spans that they cover is covered by the others. */
  lemma CoveredAfterFirst(r: seq<Span>, j: nat)
    requires r != [] && Covered(r, j) && r[0].end <= j
    ensures Covered(r[1..], j)
  {
    var k :| 0 <= k < |r| && r[k].start <= j < r[k].end;
    assert r[1..][k - 1] == r[k];
  }

  lemma LeftmostScanSkip(m: seq<Option<nat>>, i: nat, r: seq<Span>)
    requires IsMatchTable(m) && i < |m| && IsLeftmostScan(m, i, r)
    requires r == [] || r[0].start != i
    ensures m[i].None? && IsLeftmostScan(m, i + 1, r)
  {
  }

  /** What `matchAll(p)` returns on `s` is the one leftmost scan of `s`. */
  lemma ScanCharacterized(p: Pattern, s: string, r: seq<Span>)
    ensures IsLeftmostScan(MatchTable(p, s), 0, r) <==> r == Scan(p, s, 0)
  {
    var m := MatchTable(p, s);
    ScanIsLeftmost(m, 0);
    if IsLeftmostScan(m, 0, r) {
      LeftmostScanIsScan(m, 0, r);
    }
  }

  // ---------------------------------------------------------------------
  // replaceAll: each match replaced, the text between matches copied

  /** How many characters `spans` cover together. */
  function CoveredLength(spans: seq<Span>): nat
  {
    if spans == [] then 0
    else (if spans[0].start <= spans[0].end then spans[0].end - spans[0].start else 0) + CoveredLength(spans[1..])
  }

  /** The length of all of `reps` together. */
  function TotalLength(reps: seq<string>): nat
  {
    if reps == [] then 0 else |reps[0]| + TotalLength(reps[1..])
  }

  /**
   * `s[from..]` with each of `spans` replaced by the matching entry of
   * `reps`: the covered characters go, the replacements come in.
   */
  function Splice(s: string, from: nat, spans: seq<Span>, reps: seq<string>): (r: string)
    requires from <= |s| && Ordered(spans, from, |s|) && |reps| == |spans|
    ensures |r| + CoveredLength(spans) == |s| - from + TotalLength(reps)
    decreases |spans|
  {
    if spans == [] then s[from..]
    else s[from..spans[0].start] + reps[0] + Splice(s, spans[0].end, spans[1..], reps[1..])
  }

  /** Replacing each match by its own text gives back the input: nothing outside the matches changes. */
  lemma {:induction false} SpliceUnchanged(s: string, from: nat, spans: seq<Span>, reps: seq<string>)
    requires from <= |s| && Ordered(spans, from, |s|) && |reps| == |spans|
    requires forall k :: 0 <= k < |spans| ==> reps[k] == s[spans[k].start..spans[k].end]
    ensures Splice(s, from, spans, reps) == s[from..]
    decreases |spans|
  {
    if spans != [] {
      SpliceUnchanged(s, spans[0].end, spans[1..], reps[1..]);
      var a, b := spans[0].start, spans[0].end;
      assert s[from..a] + s[a..b] + s[b..] == s[from..];
    }
  }

  /** `s[from..]` with the text of `spans` deleted: exactly the covered characters go. */
  function DeleteSpans(s: string, from: nat, spans: seq<Span>): (r: string)
    requires from <= |s| && Ordered(spans, from, |s|)
    ensures |r| + CoveredLength(spans) == |s| - from
  {
    NothingInserted(|spans|);
    Splice(s, from, spans, Repeat("", |spans|))
  }

  /** Empty replacements add no characters. */
  lemma {:induction false} NothingInserted(n: nat)
    ensures TotalLength(Repeat("", n)) == 0
  {
    if n > 0 {
      assert Repeat("", n)[1..] == Repeat("", n - 1);
      NothingInserted(n - 1);
    }
  }

  /** Deleting spans never lengthens the text. */
  lemma {:induction false} DeleteSpansShrinks(s: string, from: nat, spans: seq<Span>)
    requires from <= |s| && Ordered(spans, from, |s|)
    ensures |DeleteSpans(s, from, spans)| <= |s| - from
    decreases |spans|
  {
    if spans != [] {
      var n := |spans|;
      assert Repeat("", n)[1..] == Repeat("", n - 1);
      DeleteSpansShrinks(s, spans[0].end, spans[1..]);
    }
  }

  /** With nothing to delete, the text is copied. */
  lemma NothingDeleted(s: string)
    ensures DeleteSpans(s, 0, []) == s
  {
    assert s[0..] == s;
  }

  /** Copying `s[from..from']` before a splice that starts at `from'`. */
  lemma SpliceShift(s: string, from: nat, from': nat, spans: seq<Span>, reps: seq<string>)
    requires from <= from' <= |s| && Ordered(spans, from', |s|) && |reps| == |spans|
    ensures Ordered(spans, from, |s|)
    ensures s[from..from'] + Splice(s, from', spans, reps) == Splice(s, from, spans, reps)
  {
    OrderedWiden(spans, from, from', |s|);
    if spans != [] {
      var a := spans[0].start;
      var tail := SpliceUnfold(s, from', spans, reps);
      var tail' := SpliceUnfold(s, from, spans, reps);
      SliceSplit(s, from, from', a);
      PrefixBeforeSplice(s[from..from'], s[from'..a], s[from..a], reps[0], tail,
                         Splice(s, from', spans, reps), Splice(s, from, spans, reps));
    } else {
      assert s[from..from'] + s[from'..] == s[from..];
    }
  }

  lemma SliceSplit(s: string, i: nat, j: nat, k: nat)
    requires i <= j <= k <= |s|
    ensures s[i..j] + s[j..k] == s[i..k]
  {
  }

  lemma PrefixBeforeSplice(x: string, y: string, xy: string, rep: string, tail: string, whole': string, whole: string)
    requires xy == x + y
    requires whole' == y + rep + tail
    requires whole == xy + rep + tail
    ensures x + whole' == whole
  {
    calc {
      x + whole';
      x + ((y + rep) + tail);
      { ConcatThree(x, y + rep, tail); }
      (x + (y + rep)) + tail;
      { ConcatThree(x, y, rep); }
      ((x + y) + rep) + tail;
    }
  }

  lemma ConcatThree(x: string, y: string, z: string)
    ensures x + (y + z) == (x + y) + z
  {
  }

  /** One step of a splice: the text before the first span, its replacement, then the rest. */
  lemma SpliceUnfold(s: string, from: nat, spans: seq<Span>, reps: seq<string>) returns (tail: string)
    requires from <= |s| && Ordered(spans, from, |s|) && |reps| == |spans| && spans != []
    ensures from <= spans[0].start <= spans[0].end <= |s|
    ensures Ordered(spans[1..], spans[0].end, |s|)
    ensures tail == Splice(s, spans[0].end, spans[1..], reps[1..])
    ensures Splice(s, from, spans, reps) == s[from..spans[0].start] + reps[0] + tail
  {
    OrderedTail(spans, from, |s|);
    tail := Splice(s, spans[0].end, spans[1..], reps[1..]);
  }

  /** Spans inside `[from', n]` are inside any wider `[from, n]`. */
  lemma OrderedWiden(spans: seq<Span>, from: nat, from': nat, n: nat)
    requires from <= from' && Ordered(spans, from', n)
    ensures Ordered(spans, from, n)
  {
  }

  /** After the first span, the others lie between its end and `n`. */
  lemma OrderedTail(spans: seq<Span>, from: nat, n: nat)
    requires spans != [] && Ordered(spans, from, n)
    ensures from <= spans[0].start <= spans[0].end <= n
    ensures Ordered(spans[1..], spans[0].end, n)
  {
    var t := spans[1..];
    forall k | 0 <= k < |t|
      ensures spans[0].end <= t[k].start <= t[k].end <= n
    {
      assert t[k] == spans[k + 1];
    }
    forall j, k | 0 <= j < k < |t|
      ensures t[j].end <= t[k].start
    {
      assert t[j] == spans[j + 1] && t[k] == spans[k + 1];
    }
  }

  /**
   * Replacing each span by its own text minus an inner piece is deleting the
   * inner pieces.
   */
  lemma {:induction false} SpliceDeletesInner(s: string, from: nat, spans: seq<Span>, inner: seq<Span>, reps: seq<string>)
    requires from <= |s| && Ordered(spans, from, |s|) && |inner| == |spans| && |reps| == |spans|
    requires forall k :: 0 <= k < |spans| ==>
      spans[k].start <= inner[k].start <= inner[k].end <= spans[k].end
    requires forall k :: 0 <= k < |spans| ==>
      reps[k] == s[spans[k].start..inner[k].start] + s[inner[k].end..spans[k].end]
    ensures Ordered(inner, from, |s|)
    ensures Splice(s, from, spans, reps) == DeleteSpans(s, from, inner)
    decreases |spans|
  {
    InnerOrdered(from, |s|, spans, inner);
    if spans != [] {
      var n := |spans|;
      var a, b := spans[0].start, spans[0].end;
      var ia, ib := inner[0].start, inner[0].end;
      var tailS := SpliceUnfold(s, from, spans, reps);
      var tailI := SpliceUnfold(s, from, inner, Repeat("", n));
      assert Repeat("", n)[1..] == Repeat("", n - 1);
      InnerTail(s, spans, inner, reps);
      SpliceDeletesInner(s, b, spans[1..], inner[1..], reps[1..]);
      var rest := Splice(s, b, inner[1..], Repeat("", n - 1));
      SpliceShift(s, ib, b, inner[1..], Repeat("", n - 1));
      ConcatSlices(s, from, a, ia, ib, b, rest);
    }
  }

  /** The conditions of `SpliceDeletesInner` hold for all but the first span. */
  lemma InnerTail(s: string, spans: seq<Span>, inner: seq<Span>, reps: seq<string>)
    requires spans != [] && |inner| == |spans| && |reps| == |spans|
    requires forall k :: 0 <= k < |spans| ==>
      spans[k].start <= inner[k].start <= inner[k].end <= spans[k].end <= |s|
    requires forall k :: 0 <= k < |spans| ==>
      reps[k] == s[spans[k].start..inner[k].start] + s[inner[k].end..spans[k].end]
    ensures forall k :: 0 <= k < |spans| - 1 ==>
      spans[1..][k].start <= inner[1..][k].start <= inner[1..][k].end <= spans[1..][k].end
    ensures forall k :: 0 <= k < |spans| - 1 ==>
      reps[1..][k] == s[spans[1..][k].start..inner[1..][k].start] + s[inner[1..][k].end..spans[1..][k].end]
  {
    forall k | 0 <= k < |spans| - 1
      ensures spans[1..][k] == spans[k + 1] && inner[1..][k] == inner[k + 1] && reps[1..][k] == reps[k + 1]
    {
    }
  }

  lemma InnerOrdered(from: nat, n: nat, spans: seq<Span>, inner: seq<Span>)
    requires Ordered(spans, from, n) && |inner| == |spans|
    requires forall k :: 0 <= k < |spans| ==>
      spans[k].start <= inner[k].start <= inner[k].end <= spans[k].end
    ensures Ordered(inner, from, n)
  {
    forall j, k | 0 <= j < k < |inner| ensures inner[j].end <= inner[k].start {
      assert spans[j].end <= spans[k].start;
    }
  }

  lemma ConcatSlices(s: string, from: nat, a: nat, ia: nat, ib: nat, b: nat, rest: string)
    requires from <= a <= ia <= ib <= b <= |s|
    ensures s[from..a] + (s[a..ia] + s[ib..b]) + rest == s[from..ia] + "" + (s[ib..b] + rest)
  {
    assert s[from..a] + s[a..ia] == s[from..ia];
  }

  // ---------------------------------------------------------------------
  // Capture groups of a link match

  /** Group 1 of the link-graph pattern: the target between `(` and `)`. */
  function LinkTarget(s: string, sp: Span, minText: nat, mdTarget: bool): (t: string)
    requires sp.start < |s| && LinkEnd(s, sp.start, minText, mdTarget) == Some(sp.end)
    ensures t != [] && '(' !in t && ')' !in t
  {
    LinkEndIsLink(s, sp.start, minText, mdTarget);
    var te := LinkTextEnd(s, sp.start);
    var t := s[te + 2..sp.end - 1];
    assert forall k :: 0 <= k < |t| ==> t[k] == s[te + 2 + k];
    t
  }

  /** `matchAll` over a note body: the targets of its links, left to right. */
  function LinkTargets(s: string): (ts: seq<string>)
    ensures forall k :: 0 <= k < |ts| ==> ts[k] != [] && '(' !in ts[k] && ')' !in ts[k]
  {
    var ms := Scan(LinkGraphPattern, s, 0);
    seq(|ms|, k requires 0 <= k < |ms| => LinkTarget(s, ms[k], 1, false))
  }
}
