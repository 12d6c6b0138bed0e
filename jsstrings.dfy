/**
 * The JavaScript string operations the core relies on: `split`, `join`,
 * `replaceAll` with a literal pattern, `startsWith`/`endsWith`, `trim`,
 * `slice(0, n)` and the relational operators on strings.
 *
 * Strings are sequences of characters; JavaScript counts UTF-16 code units,
 * which agrees with this model for every character of the Basic
 * Multilingual Plane.
 */
module JsStrings {

  /** `s.startsWith(p)` */
  predicate StartsWith(s: string, p: string)
  {
    |p| <= |s| && s[..|p|] == p
  }

  /** `s.endsWith(p)` */
  predicate EndsWith(s: string, p: string)
  {
    |p| <= |s| && s[|s| - |p|..] == p
  }

  /** `p` occurs in `s` at index `i`. */
  predicate OccursAt(s: string, p: string, i: nat)
  {
    i + |p| <= |s| && s[i..i + |p|] == p
  }

  /** `a` is a contiguous piece of `b`. */
  ghost predicate IsInfix(a: string, b: string)
  {
    exists i: nat :: OccursAt(b, a, i)
  }

  // ---------------------------------------------------------------------
  // split / join / replaceAll

  /**
   * `s.split(sep)` for a non-empty literal separator: the pieces between the
   * occurrences of `sep` found left to right without overlap.
   */
  function Split(s: string, sep: string): (r: seq<string>)
    requires sep != []
    ensures |r| >= 1
    decreases |s|
  {
    if |s| < |sep| then [s]
    else if s[..|sep|] == sep then [""] + Split(s[|sep|..], sep)
    else
      var rest := Split(s[1..], sep);
      [[s[0]] + rest[0]] + rest[1..]
  }

  /** `n` copies of `x`. */
  function Repeat(x: string, n: nat): (r: seq<string>)
    ensures |r| == n && forall k :: 0 <= k < n ==> r[k] == x
  {
    seq(n, _ => x)
  }

  /** `parts.join(sep)`. */
  function Join(parts: seq<string>, sep: string): (r: string)
  {
    if parts == [] then ""
    else if |parts| == 1 then parts[0]
    else parts[0] + sep + Join(parts[1..], sep)
  }

  /**
   * `s.replaceAll(pat, rep)` for a non-empty literal pattern: a replacement
   * no longer than the pattern never lengthens the text, and a text shorter
   * than the pattern is kept.
   */
  function ReplaceAll(s: string, pat: string, rep: string): (r: string)
    requires pat != []
    ensures |rep| <= |pat| ==> |r| <= |s|
    ensures |s| < |pat| ==> r == s
    decreases |s|
  {
    if |s| < |pat| then s
    else if s[..|pat|] == pat then rep + ReplaceAll(s[|pat|..], pat, rep)
    else [s[0]] + ReplaceAll(s[1..], pat, rep)
  }

  /** Two parts joined. */
  lemma JoinPair(a: string, b: string, sep: string)
    ensures Join([a, b], sep) == a + sep + b
  {
    assert [a, b][1..] == [b];
  }

  lemma JoinCons(x: string, rest: seq<string>, sep: string)
    requires rest != []
    ensures Join([x] + rest, sep) == x + sep + Join(rest, sep)
  {
    assert ([x] + rest)[1..] == rest;
  }

  /** Joining the pieces of a split with the same separator gives back the string. */
  lemma {:induction false} SplitJoinRoundTrip(s: string, sep: string)
    requires sep != []
    ensures Join(Split(s, sep), sep) == s
    decreases |s|
  {
    if |s| < |sep| {
    } else if s[..|sep|] == sep {
      var tail := Split(s[|sep|..], sep);
      SplitJoinRoundTrip(s[|sep|..], sep);
      JoinCons("", tail, sep);
      calc {
        Join(Split(s, sep), sep);
        Join([""] + tail, sep);
        "" + sep + Join(tail, sep);
        sep + s[|sep|..];
        { assert s == sep + s[|sep|..]; }
        s;
      }
    } else {
      var rest := Split(s[1..], sep);
      SplitJoinRoundTrip(s[1..], sep);
      var head := [s[0]] + rest[0];
      assert Split(s, sep) == [head] + rest[1..];
      JoinHead(s[0], rest, sep);
      calc {
        Join(Split(s, sep), sep);
        [s[0]] + Join(rest, sep);
        [s[0]] + s[1..];
        { assert s == [s[0]] + s[1..]; }
        s;
      }
    }
  }

  /** Prefixing the first part with `c` prefixes the join with `c`. */
  lemma JoinHead(c: char, rest: seq<string>, sep: string)
    requires rest != []
    ensures Join([[c] + rest[0]] + rest[1..], sep) == [c] + Join(rest, sep)
  {
    if |rest| == 1 {
      assert [[c] + rest[0]] + rest[1..] == [[c] + rest[0]];
    } else {
      JoinCons(rest[0], rest[1..], sep);
      JoinCons([c] + rest[0], rest[1..], sep);
      assert rest == [rest[0]] + rest[1..];
    }
  }

  /**
   * `replaceAll` with a literal pattern is `split` followed by `join`: every
   * occurrence found left to right without overlap is replaced.
   */
  lemma {:induction false} ReplaceAllIsSplitJoin(s: string, pat: string, rep: string)
    requires pat != []
    ensures ReplaceAll(s, pat, rep) == Join(Split(s, pat), rep)
    decreases |s|
  {
    if |s| < |pat| {
    } else if s[..|pat|] == pat {
      var tail := Split(s[|pat|..], pat);
      ReplaceAllIsSplitJoin(s[|pat|..], pat, rep);
      JoinCons("", tail, rep);
      calc {
        ReplaceAll(s, pat, rep);
        rep + ReplaceAll(s[|pat|..], pat, rep);
        rep + Join(tail, rep);
        "" + rep + Join(tail, rep);
        Join([""] + tail, rep);
        Join(Split(s, pat), rep);
      }
    } else {
      var rest := Split(s[1..], pat);
      ReplaceAllIsSplitJoin(s[1..], pat, rep);
      JoinHead(s[0], rest, rep);
      calc {
        ReplaceAll(s, pat, rep);
        [s[0]] + ReplaceAll(s[1..], pat, rep);
        [s[0]] + Join(rest, rep);
        Join([[s[0]] + rest[0]] + rest[1..], rep);
        Join(Split(s, pat), rep);
      }
    }
  }

  lemma {:induction false} SplitHeadIsPrefix(s: string, sep: string)
    requires sep != []
    ensures StartsWith(s, Split(s, sep)[0])
    decreases |s|
  {
    if |s| < |sep| {
    } else if s[..|sep|] == sep {
    } else {
      SplitHeadIsPrefix(s[1..], sep);
    }
  }

  /** No piece of a split contains the separator: every occurrence was cut. */
  lemma {:induction false} SplitPiecesAvoidSeparator(s: string, sep: string)
    requires sep != []
    ensures forall k: nat, i: nat :: k < |Split(s, sep)| ==> !OccursAt(Split(s, sep)[k], sep, i)
    decreases |s|
  {
    var r := Split(s, sep);
    if |s| < |sep| {
    } else if s[..|sep|] == sep {
      SplitPiecesAvoidSeparator(s[|sep|..], sep);
      assert r == [""] + Split(s[|sep|..], sep);
      forall k: nat, i: nat | k < |r| ensures !OccursAt(r[k], sep, i) {
        if k > 0 {
          assert r[k] == Split(s[|sep|..], sep)[k - 1];
        }
      }
    } else {
      var rest := Split(s[1..], sep);
      SplitPiecesAvoidSeparator(s[1..], sep);
      SplitHeadIsPrefix(s[1..], sep);
      var head := [s[0]] + rest[0];
      assert StartsWith(s, head) by {
        assert s == [s[0]] + s[1..];
      }
      forall k: nat, i: nat | k < |r| ensures !OccursAt(r[k], sep, i) {
        if k == 0 {
          assert r[0] == head;
          HeadAvoidsSeparator(s, sep, rest[0], i);
        } else {
          assert r[k] == rest[k];
        }
      }
    }
  }

  /** A first piece that grew by one character still avoids the separator, when `s` does not start with it. */
  lemma HeadAvoidsSeparator(s: string, sep: string, piece: string, i: nat)
    requires sep != [] && |sep| <= |s| && s[..|sep|] != sep
    requires StartsWith(s, [s[0]] + piece)
    requires forall j: nat :: !OccursAt(piece, sep, j)
    ensures !OccursAt([s[0]] + piece, sep, i)
  {
    var head := [s[0]] + piece;
    if i == 0 {
      if |sep| <= |head| {
        assert head[..|sep|] == s[..|sep|];
      }
    } else if i + |sep| <= |head| {
      assert head[i..i + |sep|] == piece[i - 1..i - 1 + |sep|];
      assert !OccursAt(piece, sep, i - 1);
    }
  }

  // ---------------------------------------------------------------------
  // Splitting on one separator character

  lemma {:induction false} SplitWithoutSeparator(s: string, c: char)
    requires c !in s
    ensures Split(s, [c]) == [s]
    decreases |s|
  {
    if s != [] {
      assert s[..1] != [c] by { assert s[0] != c; }
      SplitWithoutSeparator(s[1..], c);
      assert [s[0]] + s[1..] == s;
    }
  }

  /** Splitting on a character distributes over a concatenation around that character. */
  lemma {:induction false} SplitAround(a: string, b: string, c: char)
    ensures Split(a + [c] + b, [c]) == Split(a, [c]) + Split(b, [c])
    decreases |a|
  {
    var s := a + [c] + b;
    if a == [] {
      assert s[..1] == [c];
      assert s[1..] == b;
    } else if a[0] == c {
      assert s[..1] == [c];
      assert s[1..] == a[1..] + [c] + b;
      assert a[..1] == [c];
      SplitAround(a[1..], b, c);
    } else {
      assert s[0] == a[0];
      assert s[..1] != [c];
      assert a[..1] != [c];
      assert s[1..] == a[1..] + [c] + b;
      SplitAround(a[1..], b, c);
    }
  }

  /** The pieces of a split on a character never contain that character. */
  lemma {:induction false} SplitPiecesWithoutSeparator(s: string, c: char)
    ensures forall k :: 0 <= k < |Split(s, [c])| ==> c !in Split(s, [c])[k]
    decreases |s|
  {
    var r := Split(s, [c]);
    if |s| < 1 {
    } else if s[..1] == [c] {
      SplitPiecesWithoutSeparator(s[1..], c);
      assert r == [""] + Split(s[1..], [c]);
      forall k | 0 <= k < |r| ensures c !in r[k] {
        if k > 0 { assert r[k] == Split(s[1..], [c])[k - 1]; }
      }
    } else {
      SplitPiecesWithoutSeparator(s[1..], c);
      var rest := Split(s[1..], [c]);
      assert s[0] != c by { assert s[..1] == [s[0]]; }
      forall k | 0 <= k < |r| ensures c !in r[k] {
        if k == 0 { assert r[0] == [s[0]] + rest[0]; } else { assert r[k] == rest[k]; }
      }
    }
  }

  /** Splitting a join of separator-free pieces gives back the pieces. */
  lemma {:induction false} SplitJoinInverse(parts: seq<string>, c: char)
    requires parts != []
    requires forall k :: 0 <= k < |parts| ==> c !in parts[k]
    ensures Split(Join(parts, [c]), [c]) == parts
    decreases |parts|
  {
    if |parts| == 1 {
      SplitWithoutSeparator(parts[0], c);
    } else {
      SplitJoinInverse(parts[1..], c);
      SplitWithoutSeparator(parts[0], c);
      SplitAround(parts[0], Join(parts[1..], [c]), c);
      assert parts == [parts[0]] + parts[1..];
    }
  }

  lemma {:induction false} JoinAppend(parts: seq<string>, x: string, sep: string)
    requires parts != []
    ensures Join(parts + [x], sep) == Join(parts, sep) + sep + x
    decreases |parts|
  {
    if |parts| == 1 {
      assert parts + [x] == [parts[0], x];
    } else {
      JoinAppend(parts[1..], x, sep);
      assert (parts + [x])[1..] == parts[1..] + [x];
    }
  }

  /** Joining a concatenation joins the two joins. */
  lemma {:induction false} JoinConcat(a: seq<string>, b: seq<string>, sep: string)
    requires a != [] && b != []
    ensures Join(a + b, sep) == Join(a, sep) + sep + Join(b, sep)
    decreases |a|
  {
    if |a| == 1 {
      JoinCons(a[0], b, sep);
      assert a + b == [a[0]] + b;
    } else {
      var t := a[1..];
      JoinConcat(t, b, sep);
      JoinCons(a[0], t + b, sep);
      JoinCons(a[0], t, sep);
      assert a + b == [a[0]] + (t + b);
      assert a == [a[0]] + t;
      RegroupJoin(a[0], sep, Join(t, sep), Join(b, sep));
    }
  }

  /** The regrouping `JoinConcat` needs, over plain strings. */
  lemma RegroupJoin(x: string, sep: string, y: string, z: string)
    ensures x + sep + (y + sep + z) == (x + sep + y) + sep + z
  {
  }

  /** A pattern whose first character does not occur is never replaced. */
  lemma {:induction false} ReplaceAllAbsent(s: string, pat: string, rep: string)
    requires pat != [] && pat[0] !in s
    ensures ReplaceAll(s, pat, rep) == s
    decreases |s|
  {
    if |s| >= |pat| {
      assert s[0] != pat[0];
      assert s[..|pat|] != pat;
      ReplaceAllAbsent(s[1..], pat, rep);
      assert s == [s[0]] + s[1..];
    }
  }

  /** A prefix without the pattern's first character is copied as it is. */
  lemma {:induction false} ReplaceAllPrefix(x: string, rest: string, pat: string, rep: string)
    requires pat != [] && pat[0] !in x
    ensures ReplaceAll(x + rest, pat, rep) == x + ReplaceAll(rest, pat, rep)
    decreases |x|
  {
    if x == [] {
      assert x + rest == rest;
    } else {
      var t := x + rest;
      if |t| < |pat| {
        assert ReplaceAll(rest, pat, rep) == rest;
      } else {
        var x' := x[1..];
        assert t[0] == x[0] && t[1..] == x' + rest;
        assert pat[0] !in x' by {
          forall k | 0 <= k < |x'| ensures x'[k] != pat[0] {
            assert x'[k] == x[k + 1];
          }
        }
        ReplaceAllPrefix(x', rest, pat, rep);
        ReplaceAllSkip(t, pat, rep);
        ConsConcat(x, ReplaceAll(rest, pat, rep));
      }
    }
  }

  /** Where the pattern's first character does not match, the character is copied. */
  lemma ReplaceAllSkip(t: string, pat: string, rep: string)
    requires pat != [] && |t| >= |pat| && t[0] != pat[0]
    ensures ReplaceAll(t, pat, rep) == [t[0]] + ReplaceAll(t[1..], pat, rep)
  {
    assert t[..|pat|][0] == t[0];
  }

  lemma ConsConcat<T>(x: seq<T>, z: seq<T>)
    requires x != []
    ensures [x[0]] + (x[1..] + z) == x + z
  {
    assert x == [x[0]] + x[1..];
  }

  /** An occurrence at the very start is replaced, and the scan goes on after it. */
  lemma ReplaceAllAtStart(pat: string, rep: string, rest: string)
    requires pat != []
    ensures ReplaceAll(pat + rest, pat, rep) == rep + ReplaceAll(rest, pat, rep)
  {
    var t := pat + rest;
    assert t[..|pat|] == pat && t[|pat|..] == rest;
  }

  /** A replacement no longer than the pattern never lengthens the text. */
  lemma {:induction false} ReplaceAllShrinks(s: string, pat: string, rep: string)
    requires pat != [] && |rep| <= |pat|
    ensures |ReplaceAll(s, pat, rep)| <= |s|
    decreases |s|
  {
    if |s| >= |pat| {
      if s[..|pat|] == pat {
        ReplaceAllShrinks(s[|pat|..], pat, rep);
      } else {
        ReplaceAllShrinks(s[1..], pat, rep);
      }
    }
  }

  // ---------------------------------------------------------------------
  // trim and slice

  /** The characters `trim` removes: WhiteSpace and LineTerminator of ECMA-262. */
  predicate IsJsWhitespace(c: char)
  {
    var n := c as int;
    n == 0x09 || n == 0x0A || n == 0x0B || n == 0x0C || n == 0x0D || n == 0x20
    || n == 0xA0 || n == 0x1680 || (0x2000 <= n <= 0x200A) || n == 0x2028
    || n == 0x2029 || n == 0x202F || n == 0x205F || n == 0x3000 || n == 0xFEFF
  }

  /** `s.trimStart()` */
  function TrimStart(s: string): (r: string)
    ensures |r| <= |s| && r == s[|s| - |r|..]
    ensures forall k :: 0 <= k < |s| - |r| ==> IsJsWhitespace(s[k])
    ensures r == [] || !IsJsWhitespace(r[0])
  {
    if s != [] && IsJsWhitespace(s[0]) then TrimStart(s[1..]) else s
  }

  /** `s.trimEnd()` */
  function TrimEnd(s: string): (r: string)
    ensures |r| <= |s| && r == s[..|r|]
    ensures forall k :: |r| <= k < |s| ==> IsJsWhitespace(s[k])
    ensures r == [] || !IsJsWhitespace(r[|r| - 1])
  {
    if s != [] && IsJsWhitespace(s[|s| - 1]) then TrimEnd(s[..|s| - 1]) else s
  }

  /**
   * `s.trim()`: the longest piece of `s` that neither starts nor ends with
   * white space; only white space is cut away on either side.
   */
  function Trim(s: string): (r: string)
    ensures r == [] || (!IsJsWhitespace(r[0]) && !IsJsWhitespace(r[|r| - 1]))
    ensures IsInfix(r, s)
    ensures TrimOffset(s) + |r| <= |s| && s[TrimOffset(s)..TrimOffset(s) + |r|] == r
    ensures forall k :: 0 <= k < TrimOffset(s) ==> IsJsWhitespace(s[k])
    ensures forall k :: TrimOffset(s) + |r| <= k < |s| ==> IsJsWhitespace(s[k])
  {
    var t := TrimStart(s);
    var r := TrimEnd(t);
    TrimBoth(s, t, r);
    assert TrimOffset(s) == |s| - |t|;
    r
  }

  /** `r`, the front of the back `t` of `s`, is a piece of `s` with white space on either side of it. */
  lemma TrimBoth(s: string, t: string, r: string)
    requires |t| <= |s| && t == s[|s| - |t|..]
    requires |r| <= |t| && r == t[..|r|]
    requires forall k :: 0 <= k < |s| - |t| ==> IsJsWhitespace(s[k])
    requires forall k :: |r| <= k < |t| ==> IsJsWhitespace(t[k])
    ensures var i := |s| - |t|;
            && i + |r| <= |s| && s[i..i + |r|] == r && OccursAt(s, r, i)
            && forall k :: i + |r| <= k < |s| ==> IsJsWhitespace(s[k])
  {
    var i := |s| - |t|;
    assert s[i..][..|r|] == r;
    forall k | i + |r| <= k < |s|
      ensures IsJsWhitespace(s[k])
    {
      assert s[k] == t[k - i];
    }
  }

  /** Where `Trim(s)` starts in `s`: the length of its leading white space. */
  function TrimOffset(s: string): (i: nat)
    ensures i <= |s|
  {
    |s| - |TrimStart(s)|
  }

  /** Trimming twice is trimming once. */
  lemma TrimIdempotent(s: string)
    ensures Trim(Trim(s)) == Trim(s)
  {
  }

  /** `s.slice(0, n)`: a negative `n` counts from the end of `s`. */
  function SlicePrefix(s: string, n: int): (r: string)
    ensures |r| <= |s| && r == s[..|r|]
    ensures 0 <= n ==> |r| == (if n < |s| then n else |s|)
    ensures n < 0 ==> |r| == (if |s| + n > 0 then |s| + n else 0)
  {
    if n < 0 then (if |s| + n > 0 then s[..|s| + n] else [])
    else if n < |s| then s[..n]
    else s
  }

  // ---------------------------------------------------------------------
  // Relational operators on strings

  /** `a < b`: lexicographic order on character codes, a proper prefix first. */
  predicate Less(a: string, b: string)
    decreases |a|
  {
    if a == [] then b != []
    else if b == [] then false
    else if a[0] != b[0] then a[0] < b[0]
    else Less(a[1..], b[1..])
  }

  lemma {:induction false} LessIrreflexive(a: string)
    ensures !Less(a, a)
    decreases |a|
  {
    if a != [] { LessIrreflexive(a[1..]); }
  }

  lemma {:induction false} LessTransitive(a: string, b: string, c: string)
    requires Less(a, b) && Less(b, c)
    ensures Less(a, c)
    decreases |a|
  {
    if a != [] && b != [] && c != [] && a[0] == b[0] && b[0] == c[0] {
      LessTransitive(a[1..], b[1..], c[1..]);
    }
  }

  /** Two different strings are ordered one way or the other. */
  lemma {:induction false} LessTotal(a: string, b: string)
    requires a != b
    ensures Less(a, b) || Less(b, a)
    decreases |a|
  {
    if a != [] && b != [] && a[0] == b[0] {
      assert a == [a[0]] + a[1..] && b == [b[0]] + b[1..];
      LessTotal(a[1..], b[1..]);
    }
  }

  lemma {:induction false} LessAsymmetric(a: string, b: string)
    requires Less(a, b)
    ensures !Less(b, a)
    decreases |a|
  {
    if a != [] && b != [] && a[0] == b[0] {
      LessAsymmetric(a[1..], b[1..]);
    }
  }

  /** "Not below" is transitive: the order the date sort keeps. */
  lemma NotLessTransitive(a: string, b: string, c: string)
    requires !Less(a, b) && !Less(b, c)
    ensures !Less(a, c)
  {
    if Less(a, c) {
      if a != b && b != c {
        LessTotal(a, b);
        LessTotal(b, c);
        LessTransitive(c, b, a);
        LessAsymmetric(c, a);
      }
    }
  }

  /** The empty string is below every other string. */
  lemma EmptyIsLeast(b: string)
    ensures Less("", b) <==> b != ""
    ensures !Less(b, "")
  {
  }
}
