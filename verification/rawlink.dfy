/** The rewrite of a file view into a raw download (app.py:163-164): the first
    `/blob/` of an exp2 URL becomes `/raw/`, and the rewritten URL is still
    accepted by exp2, so the forwarder receives a URL of the same shape. */
module RawLink {
  import opened Wrappers
  import opened Text
  import opened Patterns

  /** `u.replace('/blob/', '/raw/', 1)`. */
  function BlobToRaw(u: string): string {
    ReplaceFirst(u, "/blob/", "/raw/")
  }

  /** `v` is `u` with the `/blob/` at index `i` written as `/raw/`. */
  predicate Edited(u: string, i: nat, v: string) {
    OccursAt(u, "/blob/", i) && v == u[..i] + "/raw/" + u[i + 6..]
  }

  /** The rewrite touches the first `/blob/`, when there is one. */
  lemma BlobToRawEdits(u: string)
    ensures Find(u, "/blob/").None? ==> BlobToRaw(u) == u
    ensures Find(u, "/blob/").Some? ==> Edited(u, Find(u, "/blob/").value, BlobToRaw(u))
  {
  }

  /** Index by index: the text before `i` is kept, `/raw/` sits at `i`, and
      the text after the old `/blob/` moves one place to the left. */
  lemma EditedChars(u: string, i: nat, v: string)
    requires Edited(u, i, v)
    ensures |v| == |u| - 1 && i + 5 <= |v|
    ensures forall k :: 0 <= k <= i ==> v[k] == u[k]
    ensures forall k :: i <= k < i + 5 ==> Dot(v[k])
    ensures forall k :: i + 5 <= k < |v| ==> v[k] == u[k + 1]
    ensures u[i] == '/' && u[i + 5] == '/' && v[i + 4] == '/'
    ensures forall k :: i < k < i + 5 ==> u[k] != '/'
  {
    assert u[i..i + 6] == "/blob/";
    forall k | i < k < i + 5 ensures u[k] != '/' {
      assert u[k] == u[i..i + 6][k - i];
    }
    assert u[i] == u[i..i + 6][0];
    assert u[i + 5] == u[i..i + 6][5];
  }

  /** A run of dots of `v` over `[x, y)` comes from the runs of `u` it is made of. */
  lemma DotsMap(u: string, i: nat, v: string, x: nat, y: nat)
    requires Edited(u, i, v) && y <= |v|
    requires DotsIn(u, x, if y < i then y else i)
    requires DotsIn(u, if x + 1 < i + 6 then i + 6 else x + 1, y + 1)
    ensures DotsIn(v, x, y)
  {
    EditedChars(u, i, v);
    forall k | x <= k < y ensures Dot(v[k]) {
      if k >= i + 5 {
        assert v[k] == u[k + 1];
      }
    }
  }

  /** A group that ends before the edit is a group of `v` too. */
  lemma SegmentBefore(u: string, i: nat, v: string, x: nat, len: nat)
    requires Edited(u, i, v) && x + len <= i && Segment(u, x, len)
    ensures Segment(v, x, len)
  {
    EditedChars(u, i, v);
  }

  /** What follows the repo slash survives when the two texts agree from there on. */
  lemma BlobRestShift(u: string, j: nat, v: string, j': nat)
    requires j <= |u| && j' <= |v| && |v| - j' == |u| - j
    requires forall k :: j' <= k < |v| ==> v[k] == u[k - j' + j]
    requires RestOk(BlobRest, u, j)
    ensures RestOk(BlobRest, v, j')
  {
    assert v[j'..] == u[j..];
    if OccursAt(u, "blob/", j) && AnyToEnd(u, j + 5) {
      assert v[j'..j' + 5] == u[j..][..5] == u[j..j + 5];
      assert AnyToEnd(v, j' + 5);
    } else {
      assert v[j'..j' + 4] == u[j..][..4] == u[j..j + 4];
      assert AnyToEnd(v, j' + 4);
    }
  }

  /** When the edit starts at or after the repo slash `j - 1`, the kind word
      and the dots after it still match. */
  lemma KindKept(u: string, i: nat, v: string, j: nat)
    requires Edited(u, i, v) && 1 <= j && j - 1 <= i && RestOk(BlobRest, u, j)
    ensures RestOk(BlobRest, v, j)
  {
    EditedChars(u, i, v);
    if i == j - 1 {
      assert v[j..j + 4] == "raw/";
      DotsMap(u, i, v, j + 4, |v| - 1);
    } else if OccursAt(u, "blob/", j) && AnyToEnd(u, j + 5) {
      assert u[j + 4] == u[j..j + 5][4];
      forall k | j <= k < j + 4 ensures u[k] != '/' {
        assert u[k] == u[j..j + 5][k - j];
      }
      assert v[j..j + 5] == u[j..j + 5];
      DotsMap(u, i, v, j + 5, |v| - 1);
    } else {
      assert OccursAt(u, "raw/", j) && AnyToEnd(u, j + 4);
      assert u[j + 3] == u[j..j + 4][3];
      forall k | j <= k < j + 3 ensures u[k] != '/' {
        assert u[k] == u[j..j + 4][k - j];
      }
      assert v[j..j + 4] == u[j..j + 4];
      DotsMap(u, i, v, j + 4, |v| - 1);
    }
  }

  /** An exp2 cut that lies before the edit is a cut of `v`. */
  lemma CutBeforeEdit(u: string, i: nat, v: string, b: nat, a: nat, n: nat)
    requires Edited(u, i, v) && 1 <= a && Double(BlobRest, u, b, a, n)
    requires b + a + 1 + n <= i
    ensures Double(BlobRest, v, b, a, n)
  {
    SegmentBefore(u, i, v, b, a);
    SegmentBefore(u, i, v, b + a + 1, n);
    KindKept(u, i, v, b + a + 1 + n + 1);
  }

  /** Where the slash after the author lands in `v`: it stays before the
      edit and moves one place to the left after it. */
  function Moved(c: nat, i: nat): nat {
    if c <= i then c else c - 1
  }

  /** The author group, its slash moved by the edit, is a group of `v`. */
  lemma AuthorAcross(u: string, i: nat, v: string, b: nat, c: nat)
    requires Edited(u, i, v) && b <= i + 1 && b < c && Segment(u, b, c - b)
    requires c <= i || c >= i + 5
    ensures b < Moved(c, i) && Segment(v, b, Moved(c, i) - b)
  {
    EditedChars(u, i, v);
    DotsMap(u, i, v, b, Moved(c, i));
  }

  /** The repo group, both of its slashes moved by the edit, is a group of `v`. */
  lemma RepoAcross(u: string, i: nat, v: string, c: nat, j: nat)
    requires Edited(u, i, v) && c + 1 < j - 1 && Segment(u, c + 1, j - 1 - c - 1)
    requires c <= i || c >= i + 5
    requires j - 1 >= i + 5
    ensures Moved(c, i) + 1 < j - 2 && Segment(v, Moved(c, i) + 1, j - 2 - Moved(c, i) - 1)
  {
    EditedChars(u, i, v);
    DotsMap(u, i, v, Moved(c, i) + 1, j - 2);
  }

  /** An exp2 cut whose repo slash lies after the edit is a cut of `v` with
      the slashes after the edit moved one place to the left. */
  lemma CutAcrossEdit(u: string, i: nat, v: string, b: nat, a: nat, n: nat) returns (a': nat, n': nat)
    requires Edited(u, i, v) && 1 <= a && Double(BlobRest, u, b, a, n)
    requires b <= i + 1 && i < b + a + 1 + n
    ensures 1 <= a' && Double(BlobRest, v, b, a', n')
  {
    AcrossParts(u, i, v, b, a, n);
    var m := Moved(b + a, i);
    a' := m - b;
    n' := b + a + n - m - 1;
  }

  /** The pieces of the cut of `v` that `CutAcrossEdit` assembles. */
  lemma AcrossParts(u: string, i: nat, v: string, b: nat, a: nat, n: nat)
    requires Edited(u, i, v) && 1 <= a && Double(BlobRest, u, b, a, n)
    requires b <= i + 1 && i < b + a + 1 + n
    ensures var m := Moved(b + a, i);
            && b < m && Segment(v, b, m - b)
            && m + 1 < b + a + n && Segment(v, m + 1, b + a + n - m - 1)
            && RestOk(BlobRest, v, b + a + 1 + n)
  {
    var c := b + a;
    var j := c + 1 + n + 1;
    SlashesAroundEdit(u, i, v, b, a, n);
    AuthorAcross(u, i, v, b, c);
    RepoAcross(u, i, v, c, j);
    RestAfterEdit(u, i, v, b + a + 1 + n);
  }

  /** The exp2 rest at `q + 1`, past the edit, holds in `v` one place to the left. */
  lemma RestAfterEdit(u: string, i: nat, v: string, q: nat)
    requires Edited(u, i, v) && i + 5 <= q < |u| && RestOk(BlobRest, u, q + 1)
    ensures RestOk(BlobRest, v, q)
  {
    TailAfterEdit(u, i, v, q + 1);
    BlobRestShift(u, q + 1, v, q);
  }

  /** The group slashes of an exp2 cut that the edit reaches lie outside the
      edited `/blob/`: the author slash before it or at its end, the repo
      slash at its end or after it. */
  lemma SlashesAroundEdit(u: string, i: nat, v: string, b: nat, a: nat, n: nat)
    requires Edited(u, i, v) && 1 <= a && Double(BlobRest, u, b, a, n)
    requires b <= i + 1 && i < b + a + 1 + n
    ensures b + a <= i || b + a >= i + 5
    ensures b + a + 1 + n >= i + 5
  {
    EditedChars(u, i, v);
  }

  /** From index `j` of `u` on, past the edit, `v` is `u` one place to the left. */
  lemma TailAfterEdit(u: string, i: nat, v: string, j: nat)
    requires Edited(u, i, v) && i + 6 <= j <= |u|
    ensures j - 1 <= |v| && |v| - (j - 1) == |u| - j
    ensures forall k :: j - 1 <= k < |v| ==> v[k] == u[k - (j - 1) + j]
  {
    EditedChars(u, i, v);
  }

  /** Before the slash that ends the host, an exp2 URL has no slash followed
      by `b`: its prefix is one of three fixed texts. */
  lemma PrefixNoBlob(u: string, b: nat)
    requires Base(BlobRaw, u) == Some(b)
    ensures forall k :: 0 <= k < b - 1 ==> u[k] != '/' || u[k + 1] != 'b'
  {
    BaseAt(BlobRaw, u);
    var p := SchemeLength(u);
    forall k | 0 <= k < b - 1 ensures u[k] != '/' || u[k + 1] != 'b' {
      if k + 1 < p {
        assert u[k] == u[..p][k] && u[k + 1] == u[..p][k + 1];
      } else if k + 1 == p {
        assert u[k + 1] == u[p..b][0];
      } else {
        assert u[k] == u[p..b][k - p];
      }
    }
  }

  /** The host and scheme of an exp2 URL hold no `/blob/`: the first one
      starts at the slash after the host or later. */
  lemma BlobAfterHost(u: string, b: nat, i: nat)
    requires Base(BlobRaw, u) == Some(b) && OccursAt(u, "/blob/", i)
    ensures b <= i + 1
  {
    PrefixNoBlob(u, b);
    OccursAtChar(u, "/blob/", i, 0);
    OccursAtChar(u, "/blob/", i, 1);
  }

  /** The edit leaves the scheme and the host where exp2 needs them. */
  lemma BaseKept(u: string, i: nat, v: string, b: nat)
    requires Edited(u, i, v) && Base(BlobRaw, u) == Some(b) && b <= i + 1
    ensures Base(BlobRaw, v) == Some(b)
  {
    EditedChars(u, i, v);
    BaseAt(BlobRaw, u);
    assert v[..b] == u[..b];
    assert StartsWith(v, "https://") == StartsWith(u, "https://");
    assert StartsWith(v, "http://") == StartsWith(u, "http://");
    assert OccursAt(v, "github.com/", SchemeLength(v));
  }

  /** Rewriting the first `/blob/` of an exp2 URL into `/raw/` gives a URL
      exp2 still accepts. */
  lemma BlobToRawMatches(u: string)
    requires Match(BlobRaw, u).Some?
    ensures Match(BlobRaw, BlobToRaw(u)).Some?
  {
    BlobToRawEdits(u);
    var v := BlobToRaw(u);
    match Find(u, "/blob/") {
      case None =>
      case Some(i) =>
        var b := Base(BlobRaw, u).value;
        var (a, n) := LeastDouble(BlobRest, u, b, 1).value;
        LeastDoubleCorrect(BlobRest, u, b, 1);
        BlobAfterHost(u, b, i);
        BaseKept(u, i, v, b);
        if b + a + 1 + n <= i {
          CutBeforeEdit(u, i, v, b, a, n);
          assert Double(RestOf(BlobRaw), v, b, a, n);
        } else {
          var a', n' := CutAcrossEdit(u, i, v, b, a, n);
          assert Double(RestOf(BlobRaw), v, b, a', n');
        }
        MatchCorrect(BlobRaw, v);
    }
  }
}
