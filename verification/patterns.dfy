/** The URL classifier: the five anchored patterns `exp1` .. `exp5` and
    `check_url`, which returns the match of the first pattern that accepts.

    Each pattern is `^(?:https?://)?HOST/(?P<author>.+?)/(?P<repo>.+?)/REST`
    (the gist pattern has no repo group). The model states the regex as
    predicates on the text and finds the match Python's backtracking engine
    reports: the shortest author and then the shortest repo after which the
    required rest follows. Regex `.` is any character but a newline, and `$`
    holds at the end of the text or just before a final newline.

    The optional scheme group is forced by the first characters: every host
    begins with `g` or `r` and the scheme with `h`, so when a scheme is
    present the engine cannot succeed by skipping it, and when it is absent
    there is nothing to skip. The host alternatives are forced the same way. */
module Patterns {
  import opened Wrappers
  import opened Text

  /** The five accepted URL shapes, named after what they serve. */
  datatype Shape =
    | Release      // exp1: releases and archive downloads
    | BlobRaw      // exp2: file views and raw files on github.com
    | GitEndpoint  // exp3: git smart-HTTP endpoints
    | RawHost      // exp4: the raw content host
    | Gist         // exp5: gist content, author only

  /** The order in which `check_url` tries the patterns. */
  const Shapes: seq<Shape> := [Release, BlobRaw, GitEndpoint, RawHost, Gist]

  function Rank(shape: Shape): (k: nat)
    ensures k < |Shapes| && Shapes[k] == shape
  {
    match shape
    case Release => 0
    case BlobRaw => 1
    case GitEndpoint => 2
    case RawHost => 3
    case Gist => 4
  }

  /** What `check_url` hands on: the pattern that matched and `m.groups()`. */
  datatype MatchResult = MatchResult(shape: Shape, groups: seq<string>)

  /** Regex `.`: any character but a newline. */
  predicate Dot(c: char) {
    c != '\n'
  }

  /** `s[i..j]` holds no newline, so a run of `.` can cover it. */
  predicate DotsIn(s: string, i: int, j: int) {
    forall k :: i <= k < j && 0 <= k < |s| ==> Dot(s[k])
  }

  /** `.*$` on the text from `j` on: `$` holds at the end or before a final newline. */
  predicate AnyToEnd(s: string, j: int) {
    DotsIn(s, j, |s| - 1)
  }

  /** `.+$` on the text from `j` on. */
  predicate SomeToEnd(s: string, j: int) {
    0 <= j < |s| && Dot(s[j]) && AnyToEnd(s, j)
  }

  /** The regex text that follows the slash after the last capture group. */
  datatype Rest =
    | ReleaseRest  // `(?:releases|archive)/.*$`
    | BlobRest     // `(?:blob|raw)/.*$`
    | GitRest      // `(?:info|git-).*$`
    | RefPathRest  // `.+?/.+$`
    | SlashRest    // `.+?/`, the last group of the jsDelivr rewrite for raw URLs

  /** `rest` matches the text of `s` from index `j` on. */
  predicate RestOk(rest: Rest, s: string, j: nat) {
    match rest
    case ReleaseRest =>
      (OccursAt(s, "releases/", j) && AnyToEnd(s, j + 9)) || (OccursAt(s, "archive/", j) && AnyToEnd(s, j + 8))
    case BlobRest =>
      (OccursAt(s, "blob/", j) && AnyToEnd(s, j + 5)) || (OccursAt(s, "raw/", j) && AnyToEnd(s, j + 4))
    case GitRest =>
      (OccursAt(s, "info", j) || OccursAt(s, "git-", j)) && AnyToEnd(s, j + 4)
    case RefPathRest => exists k :: j < k < |s| && RefPathAt(s, j, k)
    case SlashRest => exists k :: j < k < |s| && SlashAt(s, j, k)
  }

  /** `.+?/` from `j` with its slash at `k`. */
  predicate SlashAt(s: string, j: nat, k: nat) {
    j + 1 <= k < |s| && DotsIn(s, j, k) && s[k] == '/'
  }

  /** `.+?/.+$` from `j` with the slash at `k`. */
  predicate RefPathAt(s: string, j: nat, k: nat) {
    SlashAt(s, j, k) && SomeToEnd(s, k + 1)
  }

  /** A lazy group of `n` characters starting at `i`, closed by a slash. */
  predicate Segment(s: string, i: nat, n: nat) {
    i + n < |s| && DotsIn(s, i, i + n) && s[i + n] == '/'
  }

  /** One group of `n` characters at `i`, its slash, then `rest`. */
  predicate Single(rest: Rest, s: string, i: nat, n: nat) {
    Segment(s, i, n) && RestOk(rest, s, i + n + 1)
  }

  /** A group of `x` characters at `i`, its slash, a group of `y >= 1`
      characters, its slash, then `rest`. */
  predicate Double(rest: Rest, s: string, i: nat, x: nat, y: nat) {
    Segment(s, i, x) && 1 <= y && Single(rest, s, i + x + 1, y)
  }

  /** `n` is the length the engine picks for a lazy group of at least `lo`
      characters: the least that lets the rest match. */
  ghost predicate LeastSingleAt(rest: Rest, s: string, i: nat, lo: nat, n: nat) {
    lo <= n && Single(rest, s, i, n) && forall m: nat :: lo <= m < n ==> !Single(rest, s, i, m)
  }

  /** `(x, y)` are the lengths the engine picks for two lazy groups: the least
      `x >= lo` for which some `y` works, then the least such `y`. */
  ghost predicate LeastDoubleAt(rest: Rest, s: string, i: nat, lo: nat, x: nat, y: nat) {
    && lo <= x
    && Double(rest, s, i, x, y)
    && (forall x': nat, y': nat :: lo <= x' < x ==> !Double(rest, s, i, x', y'))
    && (forall y': nat :: y' < y ==> !Double(rest, s, i, x, y'))
  }

  /** What the lazy search for one group from length `n` must answer: the
      engine's length, or nothing when no length `>= n` fits. */
  ghost predicate LeastSingleSpec(rest: Rest, s: string, i: nat, n: nat, r: Option<nat>) {
    && (r.Some? ==> LeastSingleAt(rest, s, i, n, r.value))
    && (r.None? ==> forall m: nat :: n <= m ==> !Single(rest, s, i, m))
  }

  /** What the lazy search for two groups from first length `x` must answer:
      the engine's pair, or nothing when no pair with first length `>= x` fits. */
  ghost predicate LeastDoubleSpec(rest: Rest, s: string, i: nat, x: nat, r: Option<(nat, nat)>) {
    && (r.Some? ==> LeastDoubleAt(rest, s, i, x, r.value.0, r.value.1))
    && (r.None? ==> forall x': nat, y': nat :: x <= x' ==> !Double(rest, s, i, x', y'))
  }

  /** The lazy search for one group: tries lengths `n`, `n + 1`, ... until the
      slash and `rest` follow (`LeastSingleCorrect` states what it finds). */
  function LeastSingle(rest: Rest, s: string, i: nat, n: nat): (r: Option<nat>)
    requires i + n <= |s| + 1 && DotsIn(s, i, i + n - 1)
    ensures r.Some? ==> n <= r.value && i + r.value < |s| && s[i + r.value] == '/'
    decreases |s| + 1 - (i + n)
  {
    if i + n >= |s| then None
    else if n >= 1 && !Dot(s[i + n - 1]) then None
    else if s[i + n] == '/' && RestOk(rest, s, i + n + 1) then Some(n)
    else LeastSingle(rest, s, i, n + 1)
  }

  /** A newline at `k` stops every run of dots across it. */
  lemma NewlineBlocks(s: string, i: int, k: nat, j: int)
    requires i <= k < j && k < |s| && !Dot(s[k])
    ensures !DotsIn(s, i, j)
  {
  }

  /** A run of dots that stops before a dot extends by one. */
  lemma DotsGrow(s: string, i: int, j: int)
    requires DotsIn(s, i, j) && (i <= j && 0 <= j < |s| ==> Dot(s[j]))
    ensures DotsIn(s, i, j + 1)
  {
  }

  /** A text that ends, or holds a newline, before index `i + x` has no
      group of length `>= x` at `i`. */
  lemma NoSegmentFrom(s: string, i: nat, x: nat)
    requires i + x >= |s| || (x >= 1 && i + x - 1 < |s| && !Dot(s[i + x - 1]))
    ensures forall x': nat :: x <= x' ==> !Segment(s, i, x')
  {
    forall x': nat | x <= x' ensures !Segment(s, i, x') {
      if i + x < |s| {
        NewlineBlocks(s, i, i + x - 1, i + x');
      }
    }
  }

  /** When length `n` does not fit, the answer from `n` is the answer from `n + 1`. */
  lemma LeastSingleStep(rest: Rest, s: string, i: nat, n: nat, r: Option<nat>)
    requires !Single(rest, s, i, n)
    requires LeastSingleSpec(rest, s, i, n + 1, r)
    ensures LeastSingleSpec(rest, s, i, n, r)
  {
  }

  /** The one-group search answers as the engine does. */
  lemma {:induction false} LeastSingleCorrect(rest: Rest, s: string, i: nat, n: nat)
    requires i + n <= |s| + 1 && DotsIn(s, i, i + n - 1)
    ensures LeastSingleSpec(rest, s, i, n, LeastSingle(rest, s, i, n))
    decreases |s| + 1 - (i + n), 1
  {
    if i + n >= |s| || (n >= 1 && !Dot(s[i + n - 1])) {
      LeastSingleStop(rest, s, i, n);
    } else if s[i + n] == '/' && RestOk(rest, s, i + n + 1) {
      LeastSingleHit(rest, s, i, n);
    } else {
      DotsGrow(s, i, i + n - 1);
      LeastSingleNext(rest, s, i, n);
    }
  }

  /** Where length `n` does not fit, the search and its answer move on to `n + 1`. */
  lemma {:induction false} LeastSingleNext(rest: Rest, s: string, i: nat, n: nat)
    requires i + n < |s| && DotsIn(s, i, i + n)
    requires !(s[i + n] == '/' && RestOk(rest, s, i + n + 1))
    ensures LeastSingleSpec(rest, s, i, n, LeastSingle(rest, s, i, n))
    decreases |s| + 1 - (i + n), 0
  {
    LeastSingleCorrect(rest, s, i, n + 1);
    LeastSingleSkips(rest, s, i, n);
    LeastSingleStep(rest, s, i, n, LeastSingle(rest, s, i, n + 1));
  }

  /** Where length `n` does not fit, the search goes on from `n + 1`. */
  lemma LeastSingleSkips(rest: Rest, s: string, i: nat, n: nat)
    requires i + n < |s| && DotsIn(s, i, i + n)
    requires !(s[i + n] == '/' && RestOk(rest, s, i + n + 1))
    ensures !Single(rest, s, i, n) && LeastSingle(rest, s, i, n) == LeastSingle(rest, s, i, n + 1)
  {
    assert (n >= 1 ==> Dot(s[i + n - 1]));
  }

  /** The search stops with nothing where the text ends or a newline cuts the group. */
  lemma LeastSingleStop(rest: Rest, s: string, i: nat, n: nat)
    requires i + n <= |s| + 1 && DotsIn(s, i, i + n - 1)
    requires i + n >= |s| || (n >= 1 && !Dot(s[i + n - 1]))
    ensures LeastSingle(rest, s, i, n) == None && LeastSingleSpec(rest, s, i, n, LeastSingle(rest, s, i, n))
  {
    NoSegmentFrom(s, i, n);
  }

  /** The search stops at length `n` where the slash and `rest` follow. */
  lemma LeastSingleHit(rest: Rest, s: string, i: nat, n: nat)
    requires i + n < |s| && DotsIn(s, i, i + n - 1) && (n >= 1 ==> Dot(s[i + n - 1]))
    requires s[i + n] == '/' && RestOk(rest, s, i + n + 1)
    ensures LeastSingle(rest, s, i, n) == Some(n) && LeastSingleSpec(rest, s, i, n, LeastSingle(rest, s, i, n))
  {
    DotsGrow(s, i, i + n - 1);
    assert Single(rest, s, i, n);
  }

  /** The lazy search for two groups: the least first length `>= x` for which
      a second group exists, paired with the least second length
      (`LeastDoubleCorrect` states what it finds). */
  function LeastDouble(rest: Rest, s: string, i: nat, x: nat): (r: Option<(nat, nat)>)
    requires i + x <= |s| + 1 && DotsIn(s, i, i + x - 1)
    ensures r.Some? ==> var (a, n) := r.value;
              x <= a && 1 <= n && i + a + 1 + n < |s| && s[i + a] == '/' && s[i + a + 1 + n] == '/'
    decreases |s| + 1 - (i + x)
  {
    if i + x >= |s| then None
    else if x >= 1 && !Dot(s[i + x - 1]) then None
    else
      DotsGrow(s, i, i + x - 1);
      if s[i + x] != '/' then LeastDouble(rest, s, i, x + 1)
      else if LeastSingle(rest, s, i + x + 1, 1).Some? then Some((x, LeastSingle(rest, s, i + x + 1, 1).value))
      else LeastDouble(rest, s, i, x + 1)
  }

  /** When no pair has first length `x`, the answer from `x` is the answer
      from `x + 1`. */
  lemma LeastDoubleStep(rest: Rest, s: string, i: nat, x: nat, r: Option<(nat, nat)>)
    requires forall y': nat :: !Double(rest, s, i, x, y')
    requires LeastDoubleSpec(rest, s, i, x + 1, r)
    ensures LeastDoubleSpec(rest, s, i, x, r)
  {
  }

  /** When the second group fits with least length `y` after a first group of
      length `x`, the pair `(x, y)` is the answer from `x`. */
  lemma LeastDoubleHere(rest: Rest, s: string, i: nat, x: nat, j: nat, y: nat)
    requires j == i + x + 1 && Segment(s, i, x) && LeastSingleAt(rest, s, j, 1, y)
    ensures LeastDoubleSpec(rest, s, i, x, Some((x, y)))
  {
  }

  /** The two-group search answers as the engine does. */
  lemma {:induction false} LeastDoubleCorrect(rest: Rest, s: string, i: nat, x: nat)
    requires i + x <= |s| + 1 && DotsIn(s, i, i + x - 1)
    ensures LeastDoubleSpec(rest, s, i, x, LeastDouble(rest, s, i, x))
    decreases |s| + 1 - (i + x), 2
  {
    if i + x >= |s| || (x >= 1 && !Dot(s[i + x - 1])) {
      LeastDoubleStop(rest, s, i, x);
    } else {
      DotsGrow(s, i, i + x - 1);
      if s[i + x] != '/' {
        LeastDoubleNoSlash(rest, s, i, x);
        LeastDoubleSkip(rest, s, i, x);
      } else {
        LeastSingleCorrect(rest, s, i + x + 1, 1);
        if LeastSingle(rest, s, i + x + 1, 1).Some? {
          LeastDoubleFound(rest, s, i, x);
        } else {
          LeastDoubleNoSecond(rest, s, i, x);
          LeastDoubleSkip(rest, s, i, x);
        }
      }
    }
  }

  /** The search stops with nothing where the text ends or a newline cuts the first group. */
  lemma LeastDoubleStop(rest: Rest, s: string, i: nat, x: nat)
    requires i + x <= |s| + 1 && DotsIn(s, i, i + x - 1)
    requires i + x >= |s| || (x >= 1 && !Dot(s[i + x - 1]))
    ensures LeastDouble(rest, s, i, x).None? && LeastDoubleSpec(rest, s, i, x, LeastDouble(rest, s, i, x))
  {
    NoSegmentFrom(s, i, x);
  }

  /** No slash after a first group of length `x`: the search goes on from `x + 1`. */
  lemma LeastDoubleNoSlash(rest: Rest, s: string, i: nat, x: nat)
    requires i + x < |s| && DotsIn(s, i, i + x) && s[i + x] != '/'
    ensures LeastDouble(rest, s, i, x) == LeastDouble(rest, s, i, x + 1)
  {
    assert x >= 1 ==> Dot(s[i + x - 1]);
  }

  /** No second group after a first group of length `x`: the search goes on from `x + 1`. */
  lemma LeastDoubleNoSecond(rest: Rest, s: string, i: nat, x: nat)
    requires i + x < |s| && DotsIn(s, i, i + x) && s[i + x] == '/'
    requires LeastSingle(rest, s, i + x + 1, 1).None?
    ensures LeastDouble(rest, s, i, x) == LeastDouble(rest, s, i, x + 1)
  {
    assert x >= 1 ==> Dot(s[i + x - 1]);
  }

  /** A second group after a first group of length `x`: the search answers
      with the pair. */
  lemma LeastDoubleFound(rest: Rest, s: string, i: nat, x: nat)
    requires i + x < |s| && DotsIn(s, i, i + x) && s[i + x] == '/'
    requires LeastSingle(rest, s, i + x + 1, 1).Some?
    requires LeastSingleSpec(rest, s, i + x + 1, 1, LeastSingle(rest, s, i + x + 1, 1))
    ensures LeastDoubleSpec(rest, s, i, x, LeastDouble(rest, s, i, x))
  {
    assert x >= 1 ==> Dot(s[i + x - 1]);
    var y := LeastSingle(rest, s, i + x + 1, 1).value;
    assert LeastDouble(rest, s, i, x) == Some((x, y));
    LeastDoubleHere(rest, s, i, x, i + x + 1, y);
  }

  /** The step of `LeastDoubleCorrect` where no second group follows a first
      group of length `x`, so the search moves on to `x + 1`. */
  lemma {:induction false} LeastDoubleSkip(rest: Rest, s: string, i: nat, x: nat)
    requires i + x < |s| && DotsIn(s, i, i + x)
    requires s[i + x] == '/' ==> LeastSingle(rest, s, i + x + 1, 1).None?
    requires s[i + x] == '/' ==> LeastSingleSpec(rest, s, i + x + 1, 1, None)
    requires LeastDouble(rest, s, i, x) == LeastDouble(rest, s, i, x + 1)
    ensures LeastDoubleSpec(rest, s, i, x, LeastDouble(rest, s, i, x))
    decreases |s| + 1 - (i + x), 1
  {
    assert forall y': nat :: !Double(rest, s, i, x, y');
    LeastDoubleCorrect(rest, s, i, x + 1);
    LeastDoubleStep(rest, s, i, x, LeastDouble(rest, s, i, x + 1));
  }

  /** What follows the second group of the pair the search finds matches `rest`. */
  lemma LeastDoubleRest(rest: Rest, s: string, i: nat, x: nat)
    requires i + x <= |s| + 1 && DotsIn(s, i, i + x - 1)
    requires LeastDouble(rest, s, i, x).Some?
    ensures var (a, n) := LeastDouble(rest, s, i, x).value; RestOk(rest, s, i + a + 1 + n + 1)
  {
    LeastDoubleCorrect(rest, s, i, x);
  }

  /** The least pair is unique, so whenever `(x, y)` is it, that is what
      `LeastDouble` returns. */
  lemma LeastDoubleIs(rest: Rest, s: string, i: nat, lo: nat, x: nat, y: nat)
    requires i + lo <= |s| + 1 && DotsIn(s, i, i + lo - 1)
    requires LeastDoubleAt(rest, s, i, lo, x, y)
    ensures LeastDouble(rest, s, i, lo) == Some((x, y))
  {
    LeastDoubleCorrect(rest, s, i, lo);
  }

  /** The length of the optional `https?://` group the engine takes. */
  function SchemeLength(s: string): nat {
    if StartsWith(s, "https://") then 8 else if StartsWith(s, "http://") then 7 else 0
  }

  /** The host alternatives of each pattern, in the order the regex lists them. */
  function Hosts(shape: Shape): (hs: seq<string>)
    ensures 1 <= |hs| <= 2
  {
    match shape
    case Release => ["github.com/"]
    case BlobRaw => ["github.com/"]
    case GitEndpoint => ["github.com/"]
    case RawHost => ["raw.githubusercontent.com/", "raw.github.com/"]
    case Gist => ["gist.githubusercontent.com/", "gist.github.com/"]
  }

  /** Where the author group starts, when the scheme and host are present. */
  function Base(shape: Shape, s: string): (b: Option<nat>)
    ensures b.Some? ==> b.value <= |s|
  {
    var p := SchemeLength(s);
    var hs := Hosts(shape);
    if OccursAt(s, hs[0], p) then Some(p + |hs[0]|)
    else if |hs| == 2 && OccursAt(s, hs[1], p) then Some(p + |hs[1]|)
    else None
  }

  /** Where the author group starts, the text since the scheme is one of the hosts. */
  lemma BaseAt(shape: Shape, s: string)
    requires Base(shape, s).Some?
    ensures var p := SchemeLength(s); var b := Base(shape, s).value;
            p < b <= |s| && s[p..b] in Hosts(shape) && s[..p] in ["", "http://", "https://"]
  {
  }

  /** What must follow the repo group (for the gist pattern, the author group). */
  function RestOf(shape: Shape): Rest {
    match shape
    case Release => ReleaseRest
    case BlobRaw => BlobRest
    case GitEndpoint => GitRest
    case RawHost => RefPathRest
    case Gist => RefPathRest
  }

  /** The pattern of `shape` accepts `s`: some choice of group lengths fits. */
  ghost predicate Matches(shape: Shape, s: string) {
    && Base(shape, s).Some?
    && var b := Base(shape, s).value;
       if shape == Gist then exists a :: 1 <= a && Single(RestOf(shape), s, b, a)
       else exists a, r :: 1 <= a && Double(RestOf(shape), s, b, a, r)
  }

  /** `groups` is what `m.groups()` returns for the engine's match of `shape` on `s`. */
  ghost predicate Captured(shape: Shape, s: string, groups: seq<string>) {
    && Base(shape, s).Some?
    && var b := Base(shape, s).value;
       if shape == Gist then
         exists a :: LeastSingleAt(RestOf(shape), s, b, 1, a) && groups == [s[b..b + a]]
       else
         exists a, r :: LeastDoubleAt(RestOf(shape), s, b, 1, a, r) && groups == [s[b..b + a], s[b + a + 1..b + a + 1 + r]]
  }

  /** `exp.match(s)` for the pattern of `shape` (`MatchCorrect` states that
      it is the engine's match). */
  function Match(shape: Shape, s: string): (m: Option<MatchResult>)
    ensures m.Some? ==> m.value.shape == shape
    ensures m.Some? ==> |m.value.groups| == if shape == Gist then 1 else 2
  {
    match Base(shape, s)
    case None => None
    case Some(b) => if shape == Gist then SingleMatch(shape, s, b) else DoubleMatch(shape, s, b)
  }

  /** The match of a one-group pattern whose host ends at `b`. */
  function SingleMatch(shape: Shape, s: string, b: nat): (m: Option<MatchResult>)
    requires b <= |s|
    ensures m.Some? ==> m.value.shape == shape && |m.value.groups| == 1
  {
    var r := LeastSingle(RestOf(shape), s, b, 1);
    if r.Some? then Some(MatchResult(shape, [s[b..b + r.value]])) else None
  }

  /** The match of a two-group pattern whose host ends at `b`. */
  function DoubleMatch(shape: Shape, s: string, b: nat): (m: Option<MatchResult>)
    requires b <= |s|
    ensures m.Some? ==> m.value.shape == shape && |m.value.groups| == 2
  {
    var r := LeastDouble(RestOf(shape), s, b, 1);
    if r.Some? then
      var (a, n) := r.value;
      Some(MatchResult(shape, [s[b..b + a], s[b + a + 1..b + a + 1 + n]]))
    else None
  }

  /** `Match` finds a match exactly when the pattern accepts the text, and
      its groups are the ones the engine's lazy choice captures. */
  lemma MatchCorrect(shape: Shape, s: string)
    ensures Match(shape, s).Some? <==> Matches(shape, s)
    ensures Match(shape, s).Some? ==> Captured(shape, s, Match(shape, s).value.groups)
  {
    if Base(shape, s).Some? {
      if shape == Gist {
        MatchSingleCorrect(shape, s, Base(shape, s).value);
      } else {
        MatchDoubleCorrect(shape, s, Base(shape, s).value);
      }
    }
  }

  lemma MatchSingleCorrect(shape: Shape, s: string, b: nat)
    requires shape == Gist && Base(shape, s) == Some(b)
    ensures Match(shape, s).Some? <==> Matches(shape, s)
    ensures Match(shape, s).Some? ==> Captured(shape, s, Match(shape, s).value.groups)
  {
    LeastSingleCorrect(RestOf(shape), s, b, 1);
  }

  lemma MatchDoubleCorrect(shape: Shape, s: string, b: nat)
    requires shape != Gist && Base(shape, s) == Some(b)
    ensures Match(shape, s).Some? <==> Matches(shape, s)
    ensures Match(shape, s).Some? ==> Captured(shape, s, Match(shape, s).value.groups)
  {
    LeastDoubleCorrect(RestOf(shape), s, b, 1);
    match LeastDouble(RestOf(shape), s, b, 1) {
      case Some((a, r)) =>
        MatchDouble(shape, s, b, a, r);
        CapturedDouble(shape, s, b, a, r);
      case None =>
        assert Match(shape, s).None?;
    }
  }

  /** The engine's pair of lengths captures the two texts they cut out. */
  lemma CapturedDouble(shape: Shape, s: string, b: nat, a: nat, r: nat)
    requires shape != Gist && Base(shape, s) == Some(b)
    requires LeastDoubleAt(RestOf(shape), s, b, 1, a, r)
    ensures Matches(shape, s)
    ensures Captured(shape, s, [s[b..b + a], s[b + a + 1..b + a + 1 + r]])
  {
  }

  /** The groups of a two-group match are the texts the search cut out. */
  lemma MatchDouble(shape: Shape, s: string, b: nat, a: nat, n: nat)
    requires shape != Gist && Base(shape, s) == Some(b)
    requires LeastDouble(RestOf(shape), s, b, 1) == Some((a, n))
    ensures Match(shape, s) == Some(MatchResult(shape, [s[b..b + a], s[b + a + 1..b + a + 1 + n]]))
  {
  }

  /** The first present entry of `rs`. */
  function FirstSome<R>(rs: seq<Option<R>>): (m: Option<R>)
    ensures m.None? <==> forall k :: 0 <= k < |rs| ==> rs[k].None?
    ensures m.Some? ==> exists k :: 0 <= k < |rs| && rs[k] == m && forall j :: 0 <= j < k ==> rs[j].None?
    decreases |rs|
  {
    if |rs| == 0 then None
    else if rs[0].Some? then rs[0]
    else
      var m := FirstSome(rs[1..]);
      assert forall k :: 1 <= k < |rs| ==> rs[k] == rs[1..][k - 1];
      m
  }

  /** The match of each pattern of `order`, in that order. */
  function MatchesOf(order: seq<Shape>, s: string): (rs: seq<Option<MatchResult>>)
    ensures |rs| == |order| && forall k :: 0 <= k < |order| ==> rs[k] == Match(order[k], s)
  {
    seq(|order|, k requires 0 <= k < |order| => Match(order[k], s))
  }

  /** The loop of `check_url` over the patterns in `order`: the match of the
      first pattern that matches (`FirstMatchNone` and `FirstMatchSome`
      state it). */
  function FirstMatch(order: seq<Shape>, s: string): Option<MatchResult> {
    FirstSome(MatchesOf(order, s))
  }

  /** The loop finds nothing exactly when no pattern of `order` matches. */
  lemma FirstMatchNone(order: seq<Shape>, s: string)
    ensures FirstMatch(order, s).None? <==> forall k :: 0 <= k < |order| ==> Match(order[k], s).None?
  {
    var rs := MatchesOf(order, s);
    assert forall k :: 0 <= k < |order| ==> rs[k] == Match(order[k], s);
  }

  /** What the loop finds is the match of a pattern of `order` that no
      earlier pattern precedes. */
  lemma FirstMatchSome(order: seq<Shape>, s: string)
    ensures FirstMatch(order, s).Some? ==>
              exists k :: 0 <= k < |order| && Match(order[k], s) == FirstMatch(order, s)
                          && forall j :: 0 <= j < k ==> Match(order[j], s).None?
  {
    var rs := MatchesOf(order, s);
    if FirstSome(rs).Some? {
      var k :| 0 <= k < |rs| && rs[k] == FirstSome(rs) && forall j :: 0 <= j < k ==> rs[j].None?;
      assert Match(order[k], s) == FirstMatch(order, s);
      assert forall j :: 0 <= j < k ==> Match(order[j], s).None?;
    }
  }

  /** `check_url(s)`: the match of the first of exp1 .. exp5 that matches. */
  function Classify(s: string): (m: Option<MatchResult>)
    ensures m.None? <==> forall shape :: Match(shape, s).None?
    ensures m.Some? ==> Match(m.value.shape, s) == m
    ensures m.Some? ==> forall shape :: Rank(shape) < Rank(m.value.shape) ==> Match(shape, s).None?
  {
    FirstOfShapesNone(s);
    FirstOfShapesSome(s);
    FirstMatch(Shapes, s)
  }

  /** The loop over all five patterns finds nothing exactly when no pattern matches. */
  lemma FirstOfShapesNone(s: string)
    ensures FirstMatch(Shapes, s).None? <==> forall shape :: Match(shape, s).None?
  {
    FirstMatchNone(Shapes, s);
    FirstMatchSome(Shapes, s);
    if FirstMatch(Shapes, s).None? {
      forall shape ensures Match(shape, s).None? {
        assert Shapes[Rank(shape)] == shape;
      }
    } else {
      var k :| 0 <= k < |Shapes| && Match(Shapes[k], s) == FirstMatch(Shapes, s);
      assert Match(Shapes[k], s).Some?;
    }
  }

  /** What the loop over all five patterns finds is the match of a pattern
      that no earlier pattern precedes. */
  lemma FirstOfShapesSome(s: string)
    ensures FirstMatch(Shapes, s).Some? ==>
              var m := FirstMatch(Shapes, s).value;
              Match(m.shape, s) == Some(m) && forall shape :: Rank(shape) < Rank(m.shape) ==> Match(shape, s).None?
  {
    FirstMatchSome(Shapes, s);
    assert forall k :: 0 <= k < |Shapes| ==> Rank(Shapes[k]) == k;
  }

  /** `check_url` stated on the patterns themselves: no match when no pattern
      accepts, otherwise the engine's match of the first accepting pattern. */
  lemma ClassifyCorrect(s: string)
    ensures Classify(s).None? <==> forall shape :: !Matches(shape, s)
    ensures Classify(s).Some? ==>
              var m := Classify(s).value;
              && Matches(m.shape, s) && Captured(m.shape, s, m.groups)
              && forall shape :: Rank(shape) < Rank(m.shape) ==> !Matches(shape, s)
  {
    forall shape ensures Match(shape, s).Some? <==> Matches(shape, s) {
      MatchCorrect(shape, s);
    }
    if Classify(s).Some? {
      MatchCorrect(Classify(s).value.shape, s);
    }
  }

  lemma OccursAtChar(s: string, pat: string, p: nat, k: nat)
    requires OccursAt(s, pat, p) && k < |pat|
    ensures s[p + k] == pat[k]
  {
    assert s[p..p + |pat|][k] == s[p + k];
  }

  /** The three host families (github.com, the raw host, the gist host) never
      accept the same URL: `raw.` differs from both others in its first
      character and `gist.` from `github.com/` in its third. */
  lemma HostsExclusive(s: string)
    ensures Base(RawHost, s).Some? ==> Base(Release, s).None? && Base(Gist, s).None?
    ensures Base(Gist, s).Some? ==> Base(Release, s).None?
    ensures Match(RawHost, s).Some? || Match(Gist, s).Some? ==>
              Match(Release, s).None? && Match(BlobRaw, s).None? && Match(GitEndpoint, s).None?
    ensures Match(RawHost, s).Some? ==> Match(Gist, s).None?
  {
    HostLetters(s, SchemeLength(s));
  }

  /** The first and third letters of each host, where the host sits. */
  lemma HostLetters(s: string, p: nat)
    ensures OccursAt(s, "github.com/", p) ==> s[p] == 'g' && s[p + 2] == 't'
    ensures OccursAt(s, "raw.githubusercontent.com/", p) ==> s[p] == 'r'
    ensures OccursAt(s, "raw.github.com/", p) ==> s[p] == 'r'
    ensures OccursAt(s, "gist.githubusercontent.com/", p) ==> s[p] == 'g' && s[p + 2] == 's'
    ensures OccursAt(s, "gist.github.com/", p) ==> s[p] == 'g' && s[p + 2] == 's'
  {
    FirstThird(s, "github.com/", p);
    FirstThird(s, "raw.githubusercontent.com/", p);
    FirstThird(s, "raw.github.com/", p);
    FirstThird(s, "gist.githubusercontent.com/", p);
    FirstThird(s, "gist.github.com/", p);
  }

  /** Where a host of three letters or more sits, its first and third
      letters are there. */
  lemma FirstThird(s: string, host: string, p: nat)
    requires 3 <= |host|
    ensures OccursAt(s, host, p) ==> s[p] == host[0] && s[p + 2] == host[2]
  {
    if OccursAt(s, host, p) {
      OccursAtChar(s, host, p, 0);
      OccursAtChar(s, host, p, 2);
    }
  }
}
