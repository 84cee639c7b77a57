/**
  Models of the Python `str` operations that the schema script relies on:
  `strip()`, `upper()`, `startswith`, `endswith`, the `in` operator,
  `split(sep)` (with the leftmost search it makes) and `sep.join(parts)`.
 */
module PyStr {
  import opened Wrappers

  /** Python's `str.isspace` for a single character: the whitespace `strip()` removes. */
  predicate IsSpace(c: char) {
    var n := c as int;
    (9 <= n <= 13) || (0x1C <= n <= 0x20) || n == 0x85 || n == 0xA0 || n == 0x1680
    || (0x2000 <= n <= 0x200A) || n == 0x2028 || n == 0x2029 || n == 0x202F
    || n == 0x205F || n == 0x3000
  }

  /** A slice of a slice is a slice of the original. */
  lemma SliceSlice(s: string, i: int, j: int, a: int, b: int)
    requires 0 <= i <= j <= |s| && 0 <= a <= b <= j - i
    ensures s[i..j][a..b] == s[i + a..i + b]
  {
    assert |s[i..j][a..b]| == b - a;
    forall t | 0 <= t < b - a ensures s[i..j][a..b][t] == s[i + a..i + b][t] {}
  }

  /** The first index at or after `i` that does not hold whitespace (or `|s|`). */
  function SkipSpaces(s: string, i: nat): (k: nat)
    requires i <= |s|
    ensures i <= k <= |s|
    ensures forall j :: i <= j < k ==> IsSpace(s[j])
    ensures k < |s| ==> !IsSpace(s[k])
    decreases |s| - i
  {
    if i < |s| && IsSpace(s[i]) then SkipSpaces(s, i + 1) else i
  }

  /** The smallest end `e`, with `lo <= e <= j`, such that `s[e..j]` is all whitespace. */
  function SkipSpacesBack(s: string, lo: nat, j: nat): (e: nat)
    requires lo <= j <= |s|
    ensures lo <= e <= j
    ensures forall t :: e <= t < j ==> IsSpace(s[t])
    ensures e > lo ==> !IsSpace(s[e - 1])
    decreases j
  {
    if j > lo && IsSpace(s[j - 1]) then SkipSpacesBack(s, lo, j - 1) else j
  }

  /**
    `r` is what is left of `s` once the whitespace before offset `k` and
    after offset `k + |r|` is cut off.
   */
  predicate StrippedAt(s: string, r: string, k: int) {
    0 <= k <= |s| - |r| && s[k..k + |r|] == r
    && (forall i :: 0 <= i < k ==> IsSpace(s[i]))
    && (forall i :: k + |r| <= i < |s| ==> IsSpace(s[i]))
  }

  /**
    `s.strip()`: the result sits inside `s` with only whitespace around it,
    and it neither starts nor ends with whitespace; it is empty exactly when
    `s` is all whitespace.
   */
  function Strip(s: string): (r: string)
    ensures exists k :: StrippedAt(s, r, k)
    ensures r != [] ==> !IsSpace(r[0]) && !IsSpace(r[|r| - 1])
    ensures r == [] <==> forall i :: 0 <= i < |s| ==> IsSpace(s[i])
  {
    var k := SkipSpaces(s, 0);
    var e := SkipSpacesBack(s, k, |s|);
    assert StrippedAt(s, s[k..e], k);
    s[k..e]
  }

  /** Stripping twice changes nothing more than stripping once. */
  lemma StripIdempotent(s: string)
    ensures Strip(Strip(s)) == Strip(s)
  {
    var r := Strip(s);
    if r != [] {
      assert SkipSpaces(r, 0) == 0;
      assert SkipSpacesBack(r, 0, |r|) == |r|;
    }
  }

  /** An ASCII lower-case letter. */
  predicate IsLower(c: char) {
    'a' <= c <= 'z'
  }

  /** ASCII upper-casing of one character. */
  function UpperChar(c: char): char {
    if IsLower(c) then (c as int - 32) as char else c
  }

  /**
    `s.upper()`, restricted to ASCII letters: each lower-case letter becomes
    the letter 32 code points below it, every other character is kept, and no
    lower-case letter is left.
   */
  function Upper(s: string): (r: string)
    ensures |r| == |s|
    ensures forall i :: 0 <= i < |s| && IsLower(s[i]) ==> r[i] as int == s[i] as int - 32
    ensures forall i :: 0 <= i < |s| && !IsLower(s[i]) ==> r[i] == s[i]
    ensures forall i :: 0 <= i < |r| ==> !IsLower(r[i])
  {
    seq(|s|, i requires 0 <= i < |s| => UpperChar(s[i]))
  }

  /** Upper-casing twice is upper-casing once, and text without lower-case letters is kept. */
  lemma UpperIdempotent(s: string)
    ensures Upper(Upper(s)) == Upper(s)
    ensures (forall i :: 0 <= i < |s| ==> !IsLower(s[i])) ==> Upper(s) == s
  {
    var u := Upper(s);
    assert forall i :: 0 <= i < |u| ==> Upper(u)[i] == u[i];
    if forall i :: 0 <= i < |s| ==> !IsLower(s[i]) {
      assert forall i :: 0 <= i < |s| ==> u[i] == s[i];
    }
  }

  /** `s.startswith(p)`: `s` is `p` followed by something. */
  predicate StartsWith(s: string, p: string)
    ensures StartsWith(s, p) <==> |p| <= |s| && s == p + s[|p|..]
  {
    |p| <= |s| && s[..|p|] == p
  }

  /** `s.endswith(p)`: `s` is something followed by `p`. */
  predicate EndsWith(s: string, p: string)
    ensures EndsWith(s, p) <==> |p| <= |s| && s == s[..|s| - |p|] + p
  {
    |p| <= |s| && s[|s| - |p|..] == p
  }

  /** `pat` occurs in `s` starting at index `i`. */
  predicate OccursAt(s: string, pat: string, i: int) {
    0 <= i && i + |pat| <= |s| && s[i..i + |pat|] == pat
  }

  /**
    Python's `pat in s`: `pat` occurs somewhere in `s`. The empty pattern is
    in every text, and a pattern longer than the text is in none.
   */
  predicate Contains(s: string, pat: string)
    ensures |pat| == 0 ==> Contains(s, pat)
    ensures Contains(s, pat) ==> |pat| <= |s|
  {
    assert |pat| == 0 ==> OccursAt(s, pat, 0);
    exists i | 0 <= i <= |s| - |pat| :: OccursAt(s, pat, i)
  }

  /** A prefix or a suffix of a text occurs in it. */
  lemma AffixesOccur(s: string, p: string)
    ensures StartsWith(s, p) ==> OccursAt(s, p, 0) && Contains(s, p)
    ensures EndsWith(s, p) ==> OccursAt(s, p, |s| - |p|) && Contains(s, p)
  {
    if StartsWith(s, p) {
      assert OccursAt(s, p, 0);
    }
    if EndsWith(s, p) {
      assert OccursAt(s, p, |s| - |p|);
    }
  }

  /** The leftmost occurrence of `pat` in `s` at or after index `i`. */
  function IndexFrom(s: string, pat: string, i: nat): (r: Option<nat>)
    ensures r.Some? ==> i <= r.value && OccursAt(s, pat, r.value)
    ensures r.Some? ==> forall j :: i <= j < r.value ==> !OccursAt(s, pat, j)
    ensures r.None? ==> forall j :: i <= j ==> !OccursAt(s, pat, j)
    decreases |s| - i
  {
    if i + |pat| > |s| then None
    else if OccursAt(s, pat, i) then Some(i)
    else IndexFrom(s, pat, i + 1)
  }

  /** The leftmost occurrence of `pat` in `s`: where `split(pat)` makes its first cut. */
  function IndexOf(s: string, pat: string): (r: Option<nat>)
    ensures r.Some? ==> OccursAt(s, pat, r.value)
    ensures r.Some? ==> forall j :: 0 <= j < r.value ==> !OccursAt(s, pat, j)
    ensures r.None? ==> forall j :: 0 <= j ==> !OccursAt(s, pat, j)
  {
    IndexFrom(s, pat, 0)
  }

  /** A prefix that ends before the first occurrence of `pat` does not contain `pat`. */
  lemma PrefixBeforeFirst(s: string, pat: string, k: nat)
    requires k <= |s| && |pat| > 0
    requires forall j :: 0 <= j < k ==> !OccursAt(s, pat, j)
    ensures !Contains(s[..k], pat)
  {
    forall j | 0 <= j <= k - |pat| ensures !OccursAt(s[..k], pat, j) {
      assert j < k && !OccursAt(s, pat, j);
      assert s[..k][j..j + |pat|] == s[j..j + |pat|];
    }
  }

  /** The total length of some strings. */
  function LengthSum(parts: seq<string>): nat
    decreases |parts|
  {
    if parts == [] then 0 else LengthSum(parts[..|parts| - 1]) + |parts[|parts| - 1]|
  }

  /** `sep.join(parts)`. */
  function Join(parts: seq<string>, sep: string): string
    decreases |parts|
  {
    if |parts| == 0 then ""
    else if |parts| == 1 then parts[0]
    else Join(parts[..|parts| - 1], sep) + sep + parts[|parts| - 1]
  }

  /**
    A join holds the pieces in order with one separator between each two: it
    is empty for no pieces, starts with the first piece, ends with the last,
    and is as long as the pieces plus `|parts| - 1` separators.
   */
  lemma {:induction false} JoinShape(parts: seq<string>, sep: string)
    ensures |parts| == 0 ==> Join(parts, sep) == ""
    ensures |parts| > 0 ==> |Join(parts, sep)| == LengthSum(parts) + (|parts| - 1) * |sep|
    ensures |parts| > 0 ==> StartsWith(Join(parts, sep), parts[0])
                            && EndsWith(Join(parts, sep), parts[|parts| - 1])
    decreases |parts|
  {
    if |parts| > 1 {
      var init := parts[..|parts| - 1];
      JoinShape(init, sep);
      assert init[0] == parts[0];
      ConcatAffixes(Join(init, sep), sep, parts[|parts| - 1], parts[0]);
      assert LengthSum(parts) == LengthSum(init) + |parts[|parts| - 1]|;
    }
  }

  /** `j + sep + last` keeps every prefix of `j` and ends with `last`. */
  lemma ConcatAffixes(j: string, sep: string, last: string, first: string)
    requires StartsWith(j, first)
    ensures StartsWith(j + sep + last, first) && EndsWith(j + sep + last, last)
  {
    var r := j + sep + last;
    assert r[..|first|] == j[..|first|];
    assert r[|r| - |last|..] == last;
  }

  /**
    `s.split(sep)`: cuts at every leftmost non-overlapping occurrence of
    `sep`, keeping empty pieces; there is always at least one piece and no
    piece contains `sep`. Python raises on an empty separator.
   */
  function Split(s: string, sep: string): (parts: seq<string>)
    requires |sep| > 0
    ensures |parts| >= 1
    ensures forall i :: 0 <= i < |parts| ==> !Contains(parts[i], sep)
    decreases |s|
  {
    var found := IndexOf(s, sep);
    if found.None? then [s]
    else
      var k := found.value;
      PrefixBeforeFirst(s, sep, k);
      [s[..k]] + Split(s[k + |sep|..], sep)
  }

  /** Joining non-empty lists `a` and `b` puts one separator between them. */
  lemma {:induction false} JoinAppend(a: seq<string>, b: seq<string>, sep: string)
    requires |a| > 0 && |b| > 0
    ensures Join(a + b, sep) == Join(a, sep) + sep + Join(b, sep)
    decreases |b|
  {
    if |b| == 1 {
      assert (a + b)[..|a + b| - 1] == a;
    } else {
      var b' := b[..|b| - 1];
      assert (a + b)[..|a + b| - 1] == a + b';
      JoinAppend(a, b', sep);
    }
  }

  /** Cutting a text around an occurrence of `pat`. */
  lemma CutAround(s: string, pat: string, k: nat)
    requires OccursAt(s, pat, k)
    ensures s == s[..k] + pat + s[k + |pat|..]
  {
    assert s == s[..k] + s[k..k + |pat|] + s[k + |pat|..];
  }

  /** Round trip: joining the pieces of a split with the same separator gives the text back. */
  lemma {:induction false} SplitJoin(s: string, sep: string)
    requires |sep| > 0
    ensures Join(Split(s, sep), sep) == s
    decreases |s|
  {
    var found := IndexOf(s, sep);
    if found.Some? {
      var k := found.value;
      SplitAt(s, sep, k);
      var head, tail := s[..k], s[k + |sep|..];
      var rest := Split(tail, sep);
      SplitJoin(tail, sep);
      JoinAppend([head], rest, sep);
      CutAround(s, sep, k);
      calc {
        Join(Split(s, sep), sep);
        Join([head] + rest, sep);
        Join([head], sep) + sep + Join(rest, sep);
        head + sep + tail;
        s;
      }
    }
  }

  /** Substring is transitive. */
  lemma ContainsTransitive(a: string, b: string, c: string)
    requires Contains(a, b) && Contains(b, c)
    ensures Contains(a, c)
  {
    var i :| 0 <= i <= |a| - |b| && OccursAt(a, b, i);
    var j :| 0 <= j <= |b| - |c| && OccursAt(b, c, j);
    SliceSlice(a, i, i + |b|, j, j + |c|);
    assert OccursAt(a, c, i + j);
  }

  /** Every piece of a split is a substring of the text. */
  lemma {:induction false} SplitPiecesOccur(s: string, sep: string)
    requires |sep| > 0
    ensures forall p :: p in Split(s, sep) ==> Contains(s, p)
    decreases |s|
  {
    match IndexOf(s, sep)
    case None =>
      assert OccursAt(s, s, 0);
    case Some(k) =>
      var tail := s[k + |sep|..];
      assert OccursAt(s, s[..k], 0);
      assert OccursAt(s, tail, k + |sep|);
      SplitPiecesOccur(tail, sep);
      forall p | p in Split(tail, sep) ensures Contains(s, p) {
        ContainsTransitive(s, tail, p);
      }
  }

  /** Unfolding a split once: the text up to the first separator, then the split of the rest. */
  lemma SplitUnfold(s: string, sep: string)
    requires |sep| > 0
    ensures IndexOf(s, sep).None? ==> Split(s, sep) == [s]
    ensures IndexOf(s, sep).Some? ==>
              var k := IndexOf(s, sep).value;
              Split(s, sep) == [s[..k]] + Split(s[k + |sep|..], sep)
  {
  }

  /** Unfolding a split at the first occurrence `k` of the separator. */
  lemma SplitAt(s: string, sep: string, k: nat)
    requires |sep| > 0 && IndexOf(s, sep) == Some(k)
    ensures k + |sep| <= |s| && Split(s, sep) == [s[..k]] + Split(s[k + |sep|..], sep)
  {
    assert OccursAt(s, sep, k);
  }

  /** The leftmost search succeeds exactly when the pattern occurs. */
  lemma IndexOfContains(s: string, pat: string)
    ensures IndexOf(s, pat).Some? <==> Contains(s, pat)
  {
    if IndexOf(s, pat).Some? {
      assert OccursAt(s, pat, IndexOf(s, pat).value);
    }
  }

  /** The first piece of a split is a prefix of the text inside which no separator starts. */
  lemma FirstPiecePrefix(s: string, sep: string)
    requires |sep| > 0
    ensures var p := Split(s, sep)[0];
            && |p| <= |s| && p == s[..|p|]
            && (forall i :: 0 <= i < |p| ==> !OccursAt(s, sep, i))
  {
    SplitUnfold(s, sep);
  }

  /**
    Without a separator the split is the text alone; otherwise a separator
    follows the first piece, and the second piece is the first piece of the
    split of what follows that separator.
   */
  lemma FirstPieceEnd(s: string, sep: string)
    requires |sep| > 0
    ensures !Contains(s, sep) ==> Split(s, sep) == [s]
    ensures Contains(s, sep) ==>
              var p := Split(s, sep)[0];
              && |Split(s, sep)| > 1 && OccursAt(s, sep, |p|)
              && Split(s, sep)[1] == Split(s[|p| + |sep|..], sep)[0]
  {
    IndexOfContains(s, sep);
    if Contains(s, sep) {
      PieceAfterFirst(s, sep);
    } else {
      SplitUnfold(s, sep);
    }
  }

  /** When `sep` occurs, the first piece ends at its first occurrence. */
  lemma PieceAfterFirst(s: string, sep: string)
    requires |sep| > 0 && IndexOf(s, sep).Some?
    ensures var p := Split(s, sep)[0];
            && |Split(s, sep)| > 1 && OccursAt(s, sep, |p|)
            && Split(s, sep)[1] == Split(s[|p| + |sep|..], sep)[0]
  {
    var k := IndexOf(s, sep).value;
    assert OccursAt(s, sep, k);
    SplitAt(s, sep, k);
    ConsIndex(s[..k], Split(s[k + |sep|..], sep));
  }

  /** The first two elements of `[x] + xs`. */
  lemma ConsIndex<T>(x: T, xs: seq<T>)
    requires |xs| > 0
    ensures |[x] + xs| > 1 && ([x] + xs)[0] == x && ([x] + xs)[1] == xs[0]
  {
  }

  /**
    Splitting on a one-character separator undoes a join of pieces that do
    not contain it (lines joined with "\n" split back into the same lines).
   */
  lemma {:induction false} JoinSplitChar(g: seq<string>, c: char)
    requires |g| > 0
    requires forall i :: 0 <= i < |g| ==> !Contains(g[i], [c])
    ensures Split(Join(g, [c]), [c]) == g
    decreases |g|
  {
    if |g| == 1 {
      assert IndexOf(g[0], [c]).None?;
    } else {
      var x, rest := g[0], g[1..];
      assert g == [x] + rest;
      JoinAppend([x], rest, [c]);
      var s := Join(g, [c]);
      assert s == x + [c] + Join(rest, [c]);
      assert OccursAt(s, [c], |x|) by { assert s[|x|..|x| + 1] == [c]; }
      var k := IndexOf(s, [c]).value;
      if k < |x| {
        assert s[k..k + 1] == x[k..k + 1];
        assert OccursAt(x, [c], k);
        assert false;
      }
      assert k == |x|;
      assert s[..k] == x;
      assert s[k + 1..] == Join(rest, [c]);
      JoinSplitChar(rest, c);
    }
  }
}
