/**
 * Node's POSIX `path.join` and `path.normalize`, the path algebra behind note
 * slugs: a path is split on `/`, empty and `.` segments are dropped, `..`
 * cancels the segment before it (or is kept when nothing can be cancelled in
 * a relative path), and the remaining segments are joined again.
 */
module NodePath {
  import opened JsStrings

  /** `path.sep` on POSIX. */
  const Sep: char := '/'

  /**
   * One segment of Node's `normalizeString`: `stack` holds the segments kept
   * so far; `allowAboveRoot` is true for relative paths.
   */
  function Step(stack: seq<string>, seg: string, allowAboveRoot: bool): (r: seq<string>)
    ensures |r| <= |stack| + 1
    ensures stack != [] ==> stack[..|stack| - 1] <= r
    ensures seg != ".." ==> stack <= r
    ensures seg == ".." && stack != [] && stack[|stack| - 1] != ".." ==> r == stack[..|stack| - 1]
  {
    if seg == "" || seg == "." then stack
    else if seg == ".." then
      if stack != [] && stack[|stack| - 1] != ".." then stack[..|stack| - 1]
      else if allowAboveRoot then stack + [".."]
      else stack
    else stack + [seg]
  }

  /** `normalizeString` over a sequence of segments, left to right. */
  function Resolve(stack: seq<string>, segs: seq<string>, allowAboveRoot: bool): (r: seq<string>)
    ensures |r| <= |stack| + |segs|
    ensures (forall k :: 0 <= k < |segs| ==> segs[k] != "..") ==> stack <= r
    decreases |segs|
  {
    if segs == [] then stack
    else Resolve(Step(stack, segs[0], allowAboveRoot), segs[1..], allowAboveRoot)
  }

  /** `path.normalize(p)` */
  function Normalize(p: string): (r: string)
    ensures r != ""
  {
    if p == "" then "."
    else
      var absolute := p[0] == Sep;
      var trailing := p[|p| - 1] == Sep;
      var parts := Split(p, [Sep]);
      var segs := Resolve([], parts, !absolute);
      if segs == [] then (if absolute then "/" else if trailing then "./" else ".")
      else
        SplitPiecesWithoutSeparator(p, Sep);
        ResolveIsResolved([], parts, !absolute);
        JoinFirstLast(segs);
        Render(segs, absolute, trailing)
  }

  /** The text `normalize` builds from the kept segments. */
  function Render(segs: seq<string>, absolute: bool, trailing: bool): string
  {
    (if absolute then "/" else "") + Join(segs, [Sep]) + (if trailing then "/" else "")
  }

  /** The arguments of `path.join` that it does not skip. */
  function NonEmpty(args: seq<string>): (r: seq<string>)
    ensures forall k :: 0 <= k < |r| ==> r[k] != "" && r[k] in args
    ensures forall a :: a in args && a != "" ==> a in r
  {
    if args == [] then []
    else if args[0] == "" then NonEmpty(args[1..])
    else [args[0]] + NonEmpty(args[1..])
  }

  /** `path.join(...args)` */
  function PathJoin(args: seq<string>): (r: string)
    ensures r != ""
  {
    var parts := NonEmpty(args);
    if parts == [] then "." else Normalize(Join(parts, [Sep]))
  }

  /** `p` without its trailing separators. */
  function TrimTrailingSeps(p: string): (r: string)
    ensures |r| <= |p| && r == p[..|r|]
    ensures r == [] || r[|r| - 1] != Sep
  {
    if p != [] && p[|p| - 1] == Sep then TrimTrailingSeps(p[..|p| - 1]) else p
  }

  /**
   * `path.basename(p, ext)`: the last segment, trailing separators ignored,
   * without the suffix `ext` unless the segment is `ext` itself; a suffix
   * equal to the whole path gives the empty string.
   */
  function BaseName(p: string, ext: string): (r: string)
    ensures Sep !in r
  {
    if ext != "" && ext == p then ""
    else
      var parts := Split(TrimTrailingSeps(p), [Sep]);
      SplitPiecesWithoutSeparator(TrimTrailingSeps(p), Sep);
      var last := parts[|parts| - 1];
      if ext != "" && EndsWith(last, ext) && last != ext then last[..|last| - |ext|] else last
  }

  // ---------------------------------------------------------------------
  // Normal forms

  /** A segment naming a directory entry: not empty, not `.` or `..`, no separator. */
  predicate IsPlainSegment(seg: string)
  {
    seg != "" && seg != "." && seg != ".." && Sep !in seg
  }

  /** A canonical relative path: one or more plain segments joined by `/`. */
  ghost predicate IsCanonical(p: string)
  {
    forall k :: 0 <= k < |Split(p, [Sep])| ==> IsPlainSegment(Split(p, [Sep])[k])
  }

  /**
   * What `Resolve` produces: no empty or `.` segment, no separator inside a
   * segment, every `..` at the front, and none at all above an absolute root.
   */
  ghost predicate IsResolved(segs: seq<string>, allowAboveRoot: bool)
  {
    && (forall k :: 0 <= k < |segs| ==> segs[k] != "" && segs[k] != "." && Sep !in segs[k])
    && (forall j, k :: 0 <= j < k < |segs| && segs[k] == ".." ==> segs[j] == "..")
    && (!allowAboveRoot ==> forall k :: 0 <= k < |segs| ==> segs[k] != "..")
  }

  lemma {:induction false} ResolveAppend(stack: seq<string>, a: seq<string>, b: seq<string>, allow: bool)
    ensures Resolve(stack, a + b, allow) == Resolve(Resolve(stack, a, allow), b, allow)
    decreases |a|
  {
    if a == [] {
      assert a + b == b;
    } else {
      assert (a + b)[0] == a[0];
      assert (a + b)[1..] == a[1..] + b;
      ResolveAppend(Step(stack, a[0], allow), a[1..], b, allow);
    }
  }

  lemma StepKeepsResolved(stack: seq<string>, seg: string, allow: bool)
    requires IsResolved(stack, allow) && Sep !in seg
    ensures IsResolved(Step(stack, seg, allow), allow)
  {
  }

  /** Whatever the input segments, `Resolve` yields a resolved sequence. */
  lemma {:induction false} ResolveIsResolved(stack: seq<string>, segs: seq<string>, allow: bool)
    requires IsResolved(stack, allow)
    requires forall k :: 0 <= k < |segs| ==> Sep !in segs[k]
    ensures IsResolved(Resolve(stack, segs, allow), allow)
    decreases |segs|
  {
    if segs != [] {
      StepKeepsResolved(stack, segs[0], allow);
      ResolveIsResolved(Step(stack, segs[0], allow), segs[1..], allow);
    }
  }

  /** A sequence that is already resolved passes through `Resolve` unchanged. */
  lemma {:induction false} ResolveOfResolved(stack: seq<string>, segs: seq<string>, allow: bool)
    requires IsResolved(stack + segs, allow)
    ensures Resolve(stack, segs, allow) == stack + segs
    decreases |segs|
  {
    if segs != [] {
      var st := stack + segs;
      assert st[|stack|] == segs[0];
      if segs[0] == ".." {
        assert forall j :: 0 <= j < |stack| ==> stack[j] == st[j] == "..";
        assert Step(stack, segs[0], allow) == stack + [segs[0]];
      } else {
        assert Step(stack, segs[0], allow) == stack + [segs[0]];
      }
      assert stack + [segs[0]] + segs[1..] == st;
      ResolveOfResolved(stack + [segs[0]], segs[1..], allow);
    }
  }

  lemma ResolveSkipsEmpty(stack: seq<string>, allow: bool)
    ensures Resolve(stack, [""], allow) == stack
  {
  }

  /** The segments of a rendered path, as `Normalize` reads them back. */
  lemma RenderedSplit(segs: seq<string>, absolute: bool, trailing: bool)
    requires segs != [] && IsResolved(segs, !absolute)
    ensures Split(Render(segs, absolute, trailing), [Sep])
            == (if absolute then [""] else []) + (segs + (if trailing then [""] else []))
  {
    var j := Join(segs, [Sep]);
    SplitJoinInverse(segs, Sep);
    var mid := j + (if trailing then "/" else "");
    var back: seq<string> := if trailing then [""] else [];
    assert Split("", [Sep]) == [""];
    if trailing {
      SplitAround(j, "", Sep);
      assert j + [Sep] + "" == mid;
    } else {
      assert mid == j;
    }
    assert Split(mid, [Sep]) == segs + back;
    var r := Render(segs, absolute, trailing);
    if absolute {
      assert r == "" + [Sep] + mid;
      SplitAround("", mid, Sep);
    } else {
      assert r == mid;
    }
  }

  lemma {:induction false} JoinFirstLast(segs: seq<string>)
    requires segs != []
    requires forall k :: 0 <= k < |segs| ==> segs[k] != "" && Sep !in segs[k]
    ensures var j := Join(segs, [Sep]);
            j != [] && j[0] == segs[0][0] && j[|j| - 1] == segs[|segs| - 1][|segs[|segs| - 1]| - 1]
    decreases |segs|
  {
    var j := Join(segs, [Sep]);
    if |segs| > 1 {
      var t := segs[1..];
      assert forall k :: 0 <= k < |t| ==> t[k] == segs[k + 1];
      JoinFirstLast(t);
      var jt := Join(t, [Sep]);
      assert j == segs[0] + [Sep] + jt;
      assert j[0] == segs[0][0];
      assert j[|j| - 1] == jt[|jt| - 1];
      assert t[|t| - 1] == segs[|segs| - 1];
    } else {
      assert j == segs[0];
    }
  }

  lemma SplitSmallCases()
    ensures Split("", [Sep]) == [""]
    ensures Split("/", [Sep]) == ["", ""]
    ensures Split(".", [Sep]) == ["."]
    ensures Split("./", [Sep]) == [".", ""]
  {
    var e := Split("", [Sep]);
    assert e == [""];
    var slash: string := [Sep];
    assert slash[..1] == [Sep] && slash[1..] == "";
    assert Split(slash, [Sep]) == [""] + e;
    var dot: string := ['.'];
    assert dot[..1] != [Sep] && dot[1..] == "";
    assert Split(dot, [Sep]) == [[dot[0]] + e[0]] + e[1..];
    assert [dot[0]] + e[0] == dot && e[1..] == [];
    var dotSlash: string := ['.', Sep];
    assert dotSlash[..1] != [Sep] && dotSlash[1..] == slash;
    var rest := Split(slash, [Sep]);
    assert Split(dotSlash, [Sep]) == [[dotSlash[0]] + rest[0]] + rest[1..];
    assert dot == "." && slash == "/" && dotSlash == "./";
  }

  lemma NormalizeSmallCases()
    ensures Normalize(".") == "." && Normalize("/") == "/" && Normalize("./") == "./"
  {
    SplitSmallCases();
    assert Resolve([], ["."], true) == [];
    assert Resolve([], ["", ""], false) == [];
    assert Resolve([], [".", ""], true) == [];
  }

  /** `Resolve` skips the empty segments around a rendered path. */
  lemma ResolveFramed(segs: seq<string>, absolute: bool, trailing: bool)
    requires segs != [] && IsResolved(segs, !absolute)
    ensures Resolve([], (if absolute then [""] else []) + (segs + (if trailing then [""] else [])), !absolute) == segs
  {
    var front: seq<string> := if absolute then [""] else [];
    var back: seq<string> := if trailing then [""] else [];
    ResolveAppend([], front, segs + back, !absolute);
    assert Resolve([], front, !absolute) == [];
    ResolveAppend([], segs, back, !absolute);
    assert IsResolved([] + segs, !absolute);
    ResolveOfResolved([], segs, !absolute);
    assert Resolve([], segs, !absolute) == segs;
    assert Resolve(segs, back, !absolute) == segs;
  }

  /** A rendered path is its own normal form. */
  lemma NormalizeRendered(segs: seq<string>, absolute: bool, trailing: bool)
    requires segs != [] && IsResolved(segs, !absolute)
    ensures Normalize(Render(segs, absolute, trailing)) == Render(segs, absolute, trailing)
  {
    var r := Render(segs, absolute, trailing);
    var j := Join(segs, [Sep]);
    JoinFirstLast(segs);
    assert r != "";
    assert r[0] == Sep <==> absolute;
    assert r[|r| - 1] == Sep <==> trailing;
    RenderedSplit(segs, absolute, trailing);
    ResolveFramed(segs, absolute, trailing);
  }

  /** Normalising a normalised path changes nothing. */
  lemma NormalizeIdempotent(p: string)
    ensures Normalize(Normalize(p)) == Normalize(p)
  {
    NormalizeSmallCases();
    if p != "" {
      var absolute := p[0] == Sep;
      var parts := Split(p, [Sep]);
      SplitPiecesWithoutSeparator(p, Sep);
      var segs := Resolve([], parts, !absolute);
      ResolveIsResolved([], parts, !absolute);
      if segs != [] {
        NormalizeRendered(segs, absolute, p[|p| - 1] == Sep);
      }
    }
  }

  /** `path.join` applied to its own result changes nothing. */
  lemma PathJoinIdempotent(args: seq<string>)
    ensures PathJoin([PathJoin(args)]) == PathJoin(args)
  {
    var r := PathJoin(args);
    assert NonEmpty([r]) == [r];
    var parts := NonEmpty(args);
    if parts == [] {
      NormalizeSmallCases();
    } else {
      NormalizeIdempotent(Join(parts, [Sep]));
    }
  }

  /** Joining plain segments needs no normalisation. */
  lemma JoinPlainSegments(segs: seq<string>)
    requires segs != []
    requires forall k :: 0 <= k < |segs| ==> IsPlainSegment(segs[k])
    ensures PathJoin(segs) == Join(segs, [Sep])
  {
    NonEmptyOfNonEmpty(segs);
    var j := Join(segs, [Sep]);
    assert IsResolved(segs, true);
    NormalizeRendered(segs, false, false);
    assert Render(segs, false, false) == j;
  }

  lemma {:induction false} NonEmptyOfNonEmpty(args: seq<string>)
    requires forall k :: 0 <= k < |args| ==> args[k] != ""
    ensures NonEmpty(args) == args
    decreases |args|
  {
    if args != [] { NonEmptyOfNonEmpty(args[1..]); }
  }

  /** `path.join` of non-empty arguments normalises their join. */
  lemma PathJoinNonEmpty(args: seq<string>)
    requires args != [] && forall k :: 0 <= k < |args| ==> args[k] != ""
    ensures PathJoin(args) == Normalize(Join(args, [Sep]))
  {
    NonEmptyOfNonEmpty(args);
  }

  /** A relative path with no trailing separator normalises to its resolved segments. */
  lemma NormalizeRelative(p: string)
    requires p != "" && p[0] != Sep && p[|p| - 1] != Sep
    requires Resolve([], Split(p, [Sep]), true) != []
    ensures Normalize(p) == Join(Resolve([], Split(p, [Sep]), true), [Sep])
  {
  }

  /**
   * `path.join(root, rel)` for an absolute root and a relative path, both
   * made of plain segments, is the absolute path of all the segments.
   */
  lemma PathJoinUnderRoot(root: seq<string>, rel: seq<string>)
    requires root != [] && rel != []
    requires forall k :: 0 <= k < |root| ==> IsPlainSegment(root[k])
    requires forall k :: 0 <= k < |rel| ==> IsPlainSegment(rel[k])
    ensures PathJoin([Render(root, true, false), Join(rel, [Sep])]) == Render(root + rel, true, false)
  {
    var all := root + rel;
    var d := Render(root, true, false);
    var j := Join(rel, [Sep]);
    JoinFirstLast(rel);
    assert d != "" && j != "";
    assert forall k :: 0 <= k < |[d, j]| ==> [d, j][k] != "";
    PathJoinNonEmpty([d, j]);
    RenderAppend(root, rel);
    PlainAppendIsResolved(root, rel);
    NormalizeRendered(all, true, false);
    calc {
      PathJoin([d, j]);
      Normalize(Join([d, j], [Sep]));
      Normalize(Render(all, true, false));
      Render(all, true, false);
    }
  }

  /** Plain segments are resolved, even below an absolute root. */
  lemma PlainAppendIsResolved(root: seq<string>, rel: seq<string>)
    requires forall k :: 0 <= k < |root| ==> IsPlainSegment(root[k])
    requires forall k :: 0 <= k < |rel| ==> IsPlainSegment(rel[k])
    ensures IsResolved(root + rel, false)
  {
    var all := root + rel;
    assert forall k :: 0 <= k < |all| ==> IsPlainSegment(all[k]);
  }

  /** Joining an absolute root and a relative path renders all their segments. */
  lemma RenderAppend(root: seq<string>, rel: seq<string>)
    requires root != [] && rel != []
    ensures Join([Render(root, true, false), Join(rel, [Sep])], [Sep]) == Render(root + rel, true, false)
  {
    var d := Render(root, true, false);
    var j := Join(rel, [Sep]);
    JoinPair(d, j, [Sep]);
    JoinConcat(root, rel, [Sep]);
    assert d == "/" + Join(root, [Sep]);
    assert Render(root + rel, true, false) == "/" + (Join(root, [Sep]) + "/" + j);
  }

  /** `path.basename(p, ext)` of an absolute path of plain segments: its last segment. */
  lemma BaseNameOfRendered(segs: seq<string>, ext: string)
    requires segs != [] && forall k :: 0 <= k < |segs| ==> IsPlainSegment(segs[k])
    requires Sep !in ext
    ensures var last := segs[|segs| - 1];
            BaseName(Render(segs, true, false), ext)
            == if ext != "" && EndsWith(last, ext) && last != ext then last[..|last| - |ext|] else last
  {
    var r := Render(segs, true, false);
    JoinFirstLast(segs);
    assert r[0] == Sep && r[|r| - 1] != Sep;
    assert ext != r;
    assert TrimTrailingSeps(r) == r;
    assert IsResolved(segs, false);
    RenderedSplit(segs, true, false);
    assert Split(r, [Sep]) == [""] + segs;
  }

  /** A canonical path is its own normal form. */
  lemma CanonicalIsNormal(p: string)
    requires IsCanonical(p)
    ensures Normalize(p) == p
  {
    var segs := Split(p, [Sep]);
    SplitJoinRoundTrip(p, [Sep]);
    JoinPlainSegments(segs);
    NonEmptyOfNonEmpty(segs);
    assert Join(segs, [Sep]) == p;
    if |segs| > 1 {
      JoinCons(segs[0], segs[1..], [Sep]);
      assert segs == [segs[0]] + segs[1..];
    }
    assert p != "";
  }

  /** Splitting the join of separator-free folders and one more path. */
  lemma SplitJoinAppend(dir: seq<string>, h: string)
    requires forall k :: 0 <= k < |dir| ==> Sep !in dir[k]
    ensures Split(Join(dir + [h], [Sep]), [Sep]) == dir + Split(h, [Sep])
  {
    if dir == [] {
      assert dir + [h] == [h];
    } else {
      JoinConcat(dir, [h], [Sep]);
      SplitJoinInverse(dir, Sep);
      SplitAround(Join(dir, [Sep]), h, Sep);
    }
  }

  /** Joining folders onto a path joins them onto its segments. */
  lemma JoinSplitAppend(dir: seq<string>, h: string)
    ensures Join(dir + Split(h, [Sep]), [Sep]) == Join(dir + [h], [Sep])
  {
    SplitJoinRoundTrip(h, [Sep]);
    if dir != [] {
      JoinConcat(dir, Split(h, [Sep]), [Sep]);
      JoinConcat(dir, [h], [Sep]);
    } else {
      assert dir + [h] == [h];
      assert dir + Split(h, [Sep]) == Split(h, [Sep]);
    }
  }

  // ---------------------------------------------------------------------
  // Climbing above the root

  /** Each `..` cancels one plain segment. */
  lemma {:induction false} UpsCancelPlain(stack: seq<string>, allow: bool)
    requires forall k :: 0 <= k < |stack| ==> IsPlainSegment(stack[k])
    ensures Resolve(stack, Repeat("..", |stack|), allow) == []
    decreases |stack|
  {
    if stack != [] {
      var n := |stack|;
      assert Repeat("..", n) == [".."] + Repeat("..", n - 1);
      assert Step(stack, "..", allow) == stack[..n - 1];
      UpsCancelPlain(stack[..n - 1], allow);
    }
  }

  /** Once a relative path starts with `..`, no later segment can remove it. */
  lemma {:induction false} LeadingUpStays(stack: seq<string>, segs: seq<string>)
    requires stack != [] && stack[0] == ".."
    ensures var r := Resolve(stack, segs, true); r != [] && r[0] == ".."
    decreases |segs|
  {
    if segs != [] {
      var next := Step(stack, segs[0], true);
      assert next != [] && next[0] == "..";
      LeadingUpStays(next, segs[1..]);
    }
  }

  lemma DirResolvesToItself(dir: seq<string>)
    requires forall k :: 0 <= k < |dir| ==> IsPlainSegment(dir[k])
    ensures Resolve([], dir, true) == dir
  {
    assert [] + dir == dir;
    assert forall k :: 0 <= k < |dir| ==> dir[k] != "..";
    assert IsResolved(dir, true);
    ResolveOfResolved([], dir, true);
  }

  /**
   * Following more `..` segments than the folder `dir` is deep leaves a
   * path that starts with `..`: it points above the root.
   */
  lemma ClimbAboveRoot(dir: seq<string>, segs: seq<string>)
    requires forall k :: 0 <= k < |dir| ==> IsPlainSegment(dir[k])
    requires |segs| > |dir| && forall k :: 0 <= k <= |dir| ==> segs[k] == ".."
    ensures var r := Resolve([], dir + segs, true); r != [] && r[0] == ".."
  {
    var n := |dir|;
    var rest := segs[n + 1..];
    DirResolvesToItself(dir);
    ResolveAppend([], dir, segs, true);
    UpsPrefix(segs, n);
    ResolveAppend(dir, Repeat("..", n), [".."] + rest, true);
    UpsCancelPlain(dir, true);
    ResolveLeadingUp(rest);
  }

  lemma UpsPrefix(segs: seq<string>, n: nat)
    requires |segs| > n && forall k :: 0 <= k <= n ==> segs[k] == ".."
    ensures segs == Repeat("..", n) + ([".."] + segs[n + 1..])
  {
    var u := Repeat("..", n);
    var t := u + ([".."] + segs[n + 1..]);
    assert |t| == |segs|;
    forall k | 0 <= k < |segs| ensures t[k] == segs[k] {
      if k < n { assert t[k] == u[k]; } else if k > n { assert t[k] == segs[n + 1..][k - n - 1]; }
    }
  }

  lemma ResolveLeadingUp(rest: seq<string>)
    ensures var r := Resolve([], [".."] + rest, true); r != [] && r[0] == ".."
  {
    assert ([".."] + rest)[0] == ".." && ([".."] + rest)[1..] == rest;
    assert Step([], "..", true) == [".."];
    assert Resolve([], [".."] + rest, true) == Resolve([".."], rest, true);
    LeadingUpStays([".."], rest);
  }

  /** A path whose first segment is `..`: it names something above its starting folder. */
  predicate StartsAboveRoot(p: string)
  {
    p == ".." || StartsWith(p, "../")
  }

  /** A path that starts above the root is not canonical. */
  lemma AboveRootNotCanonical(p: string)
    requires StartsAboveRoot(p)
    ensures Split(p, [Sep])[0] == ".."
    ensures !IsCanonical(p)
  {
    SplitWithoutSeparator("..", Sep);
    if p != ".." {
      assert p == ".." + [Sep] + p[3..];
      SplitAround("..", p[3..], Sep);
    }
  }

  /** `Normalize` writes a leading `..` segment out first. */
  lemma NormalizeKeepsLeadingUp(p: string)
    requires p != "" && p[0] != Sep
    requires var segs := Resolve([], Split(p, [Sep]), true); segs != [] && segs[0] == ".."
    ensures StartsAboveRoot(Normalize(p))
  {
    var segs := Resolve([], Split(p, [Sep]), true);
    var trailing := p[|p| - 1] == Sep;
    assert Normalize(p) == Render(segs, false, trailing);
    LeadingUpJoin(segs, if trailing then "/" else "");
  }

  /** Joined segments that start with `..`, whatever follows, start above the root. */
  lemma LeadingUpJoin(segs: seq<string>, tail: string)
    requires segs != [] && segs[0] == ".."
    requires tail == "" || tail == "/"
    ensures StartsAboveRoot("" + Join(segs, [Sep]) + tail)
  {
    var j := Join(segs, [Sep]);
    if |segs| > 1 {
      JoinCons(segs[0], segs[1..], [Sep]);
      assert segs == [segs[0]] + segs[1..];
      assert j == ".." + "/" + Join(segs[1..], [Sep]);
      assert ("" + j + tail)[..3] == "../";
    } else {
      assert j == "..";
    }
  }
}
