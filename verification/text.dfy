/** The handful of Python string built-ins the gateway relies on, stated on
    `seq<char>`: `startswith`, `find`, `rfind` with bounds, `replace` with a
    count of one, `split` on one character, ASCII `lower`, and `int()`/`str()`
    on decimal integers. */
module Text {
  import opened Wrappers

  predicate StartsWith(s: string, prefix: string) {
    |prefix| <= |s| && s[..|prefix|] == prefix
  }

  /** `pat` occurs in `s` starting at index `i`. */
  predicate OccursAt(s: string, pat: string, i: int) {
    0 <= i && i + |pat| <= |s| && s[i..i + |pat|] == pat
  }

  /** `s.find(pat, from)`: the least index at or after `from` where `pat` occurs. */
  function FindFrom(s: string, pat: string, from: nat): (r: Option<nat>)
    ensures r.Some? ==> from <= r.value && OccursAt(s, pat, r.value)
    ensures r.Some? ==> forall j :: from <= j < r.value ==> !OccursAt(s, pat, j)
    ensures r.None? ==> forall j :: from <= j ==> !OccursAt(s, pat, j)
    decreases |s| - from
  {
    if from + |pat| > |s| then None
    else if s[from..from + |pat|] == pat then Some(from)
    else FindFrom(s, pat, from + 1)
  }

  /** `s.find(pat)`. */
  function Find(s: string, pat: string): Option<nat> {
    FindFrom(s, pat, 0)
  }

  /** The contract of `FindFrom` determines its result. */
  lemma FindFromIs(s: string, pat: string, from: nat, m: nat)
    requires from <= m && OccursAt(s, pat, m)
    requires forall j :: from <= j < m ==> !OccursAt(s, pat, j)
    ensures FindFrom(s, pat, from) == Some(m)
  {
  }

  /** `s.rfind(pat, lo, hi) != -1`: `pat` occurs entirely inside `s[lo:hi]`. */
  predicate FoundWithin(s: string, pat: string, lo: nat, hi: nat) {
    exists i :: lo <= i && i + |pat| <= hi && OccursAt(s, pat, i)
  }

  /** `s.replace(target, repl, 1)`: the first occurrence of `target`, if any, becomes `repl`. */
  function ReplaceFirst(s: string, target: string, repl: string): string {
    match Find(s, target)
    case Some(i) => s[..i] + repl + s[i + |target|..]
    case None => s
  }

  /** Without an occurrence of `target`, replacing changes nothing; with one, the
      text before the first occurrence is kept and the rest follows `repl`. */
  lemma ReplaceFirstCases(s: string, target: string, repl: string)
    ensures (forall j :: 0 <= j ==> !OccursAt(s, target, j)) ==> ReplaceFirst(s, target, repl) == s
    ensures forall i :: OccursAt(s, target, i) && (forall j :: 0 <= j < i ==> !OccursAt(s, target, j)) ==>
              ReplaceFirst(s, target, repl) == s[..i] + repl + s[i + |target|..]
  {
    forall i | OccursAt(s, target, i) && (forall j :: 0 <= j < i ==> !OccursAt(s, target, j))
      ensures ReplaceFirst(s, target, repl) == s[..i] + repl + s[i + |target|..]
    {
      FindFromIs(s, target, 0, i);
    }
  }

  /** Without an occurrence of `target`, replacing changes nothing. */
  lemma ReplaceFirstNone(s: string, target: string, repl: string)
    requires forall j :: 0 <= j ==> !OccursAt(s, target, j)
    ensures ReplaceFirst(s, target, repl) == s
  {
    ReplaceFirstCases(s, target, repl);
  }

  /** With its first occurrence at `i`, replacing rewrites that one. */
  lemma ReplaceFirstFound(s: string, target: string, repl: string, i: nat)
    requires Find(s, target) == Some(i)
    ensures i + |target| <= |s| && ReplaceFirst(s, target, repl) == s[..i] + repl + s[i + |target|..]
  {
  }

  /** An occurrence in `rest` is an occurrence in `p + rest`, shifted by `|p|`. */
  lemma OccursShift(p: string, rest: string, target: string, j: nat)
    ensures OccursAt(p + rest, target, |p| + j) <==> OccursAt(rest, target, j)
  {
    if j + |target| <= |rest| {
      assert (p + rest)[|p| + j..|p| + j + |target|] == rest[j..j + |target|];
    }
  }

  /** The first occurrence in `p + rest` is the first one in `rest`, shifted,
      when none starts inside `p`. */
  lemma FindShift(p: string, rest: string, target: string, k: nat)
    requires forall j :: 0 <= j < |p| ==> !OccursAt(p + rest, target, j)
    requires Find(rest, target) == Some(k)
    ensures Find(p + rest, target) == Some(|p| + k)
  {
    OccursShift(p, rest, target, k);
    forall j | 0 <= j < |p| + k ensures !OccursAt(p + rest, target, j) {
      if j >= |p| {
        OccursShift(p, rest, target, j - |p|);
      }
    }
    FindFromIs(p + rest, target, 0, |p| + k);
  }

  /** Splicing `repl` over `rest[k..k + n]` inside `p + rest` splices it in `rest`. */
  lemma SpliceShift(p: string, rest: string, k: nat, n: nat, repl: string)
    requires k + n <= |rest|
    ensures (p + rest)[..|p| + k] + repl + (p + rest)[|p| + k + n..] == p + (rest[..k] + repl + rest[k + n..])
  {
    var head, tail := rest[..k], rest[k + n..];
    assert (p + rest)[..|p| + k] == p + head;
    assert (p + rest)[|p| + k + n..] == tail;
  }

  /** `ReplaceFirstAfter` when `rest` holds `target`, first at `k`. */
  lemma ReplaceFirstAfterFound(p: string, rest: string, target: string, repl: string, k: nat)
    requires forall j :: 0 <= j < |p| ==> !OccursAt(p + rest, target, j)
    requires Find(rest, target) == Some(k)
    ensures ReplaceFirst(p + rest, target, repl) == p + ReplaceFirst(rest, target, repl)
  {
    FindShift(p, rest, target, k);
    ReplaceFirstFound(p + rest, target, repl, |p| + k);
    ReplaceFirstFound(rest, target, repl, k);
    SpliceShift(p, rest, k, |target|, repl);
  }

  /** `ReplaceFirstAfter` when `rest` does not hold `target`. */
  lemma ReplaceFirstAfterNone(p: string, rest: string, target: string, repl: string)
    requires forall j :: 0 <= j < |p| ==> !OccursAt(p + rest, target, j)
    requires Find(rest, target).None?
    ensures ReplaceFirst(p + rest, target, repl) == p + ReplaceFirst(rest, target, repl)
  {
    var s := p + rest;
    forall j | 0 <= j ensures !OccursAt(s, target, j) {
      if j >= |p| {
        OccursShift(p, rest, target, j - |p|);
      }
    }
    ReplaceFirstNone(s, target, repl);
  }

  /** Replacing inside `p + rest` leaves `p` alone when no occurrence of `target`
      starts inside `p`. */
  lemma ReplaceFirstAfter(p: string, rest: string, target: string, repl: string)
    requires forall j :: 0 <= j < |p| ==> !OccursAt(p + rest, target, j)
    ensures ReplaceFirst(p + rest, target, repl) == p + ReplaceFirst(rest, target, repl)
  {
    match Find(rest, target)
    case Some(k) => ReplaceFirstAfterFound(p, rest, target, repl, k);
    case None => ReplaceFirstAfterNone(p, rest, target, repl);
  }

  /** Replacing in `head + target + tail` hits the `target` after `head` when
      no occurrence starts inside `head`. */
  lemma ReplaceFirstAt(head: string, target: string, tail: string, repl: string)
    requires forall j :: 0 <= j < |head| ==> !OccursAt(head + target + tail, target, j)
    ensures ReplaceFirst(head + target + tail, target, repl) == head + repl + tail
  {
    assert head + target + tail == head + (target + tail);
    ReplaceFirstAfter(head, target + tail, target, repl);
    assert OccursAt(target + tail, target, 0);
    FindFromIs(target + tail, target, 0, 0);
    assert (target + tail)[|target|..] == tail;
  }

  function LowerChar(c: char): char {
    if 'A' <= c <= 'Z' then (c as int - 'A' as int + 'a' as int) as char else c
  }

  /** `s.lower()` restricted to ASCII letters. */
  function Lower(s: string): string {
    seq(|s|, i requires 0 <= i < |s| => LowerChar(s[i]))
  }

  /** `s.split(sep)` for a one-character separator. */
  function Split(s: string, sep: char): (parts: seq<string>)
    ensures |parts| >= 1
    ensures forall k :: 0 <= k < |parts| ==> sep !in parts[k]
    decreases |s|
  {
    match Find(s, [sep])
    case Some(i) =>
      assert sep !in s[..i] by {
        forall j | 0 <= j < i ensures s[j] != sep {
          assert !OccursAt(s, [sep], j);
          assert s[j..j + 1] == [s[j]];
        }
      }
      [s[..i]] + Split(s[i + 1..], sep)
    case None =>
      assert sep !in s by {
        forall j | 0 <= j < |s| ensures s[j] != sep {
          assert !OccursAt(s, [sep], j);
          assert s[j..j + 1] == [s[j]];
        }
      }
      [s]
  }

  /** `sep.join(parts)`. */
  function Join(parts: seq<string>, sep: char): string
    requires |parts| >= 1
  {
    if |parts| == 1 then parts[0] else parts[0] + [sep] + Join(parts[1..], sep)
  }

  /** Splitting loses nothing: joining the parts gives back the text. */
  lemma {:induction false} JoinSplit(s: string, sep: char)
    ensures Join(Split(s, sep), sep) == s
    decreases |s|
  {
    match Find(s, [sep])
    case Some(i) =>
      JoinSplit(s[i + 1..], sep);
      assert s[i..i + 1] == [sep];
      assert s == s[..i] + [sep] + s[i + 1..];
    case None =>
  }

  /** Splitting a join of separator-free parts gives back the parts. */
  lemma {:induction false} SplitJoin(parts: seq<string>, sep: char)
    requires |parts| >= 1
    requires forall k :: 0 <= k < |parts| ==> sep !in parts[k]
    ensures Split(Join(parts, sep), sep) == parts
    decreases |parts|
  {
    var s := Join(parts, sep);
    var p := parts[0];
    forall j | 0 <= j < |p| ensures !OccursAt(s, [sep], j) {
      assert s[j] == p[j];
      assert s[j..j + 1] == [s[j]];
    }
    if |parts| == 1 {
      ReplaceFirstCases(s, [sep], []);
      assert Find(s, [sep]).None?;
    } else {
      var rest := Join(parts[1..], sep);
      assert s == p + [sep] + rest;
      assert s[|p|..|p| + 1] == [sep];
      FindFromIs(s, [sep], 0, |p|);
      assert s[..|p|] == p;
      assert s[|p| + 1..] == rest;
      SplitJoin(parts[1..], sep);
    }
  }

  predicate IsDigit(c: char) {
    '0' <= c <= '9'
  }

  predicate AllDigits(s: string) {
    forall i :: 0 <= i < |s| ==> IsDigit(s[i])
  }

  /** The value of a string of decimal digits. */
  function DigitsValue(s: string): nat
    requires AllDigits(s)
    decreases |s|
  {
    if |s| == 0 then 0 else DigitsValue(s[..|s| - 1]) * 10 + (s[|s| - 1] as int - '0' as int)
  }

  /** `int(s)` for an optional sign followed by ASCII decimal digits; anything
      else raises `ValueError`, here `None`. */
  function ParseInt(s: string): Option<int> {
    if |s| > 0 && (s[0] == '+' || s[0] == '-') then
      if |s| > 1 && AllDigits(s[1..]) then
        var v: int := DigitsValue(s[1..]);
        Some(if s[0] == '-' then -v else v)
      else None
    else if |s| > 0 && AllDigits(s) then Some(DigitsValue(s))
    else None
  }

  function DigitChar(d: nat): char
    requires d < 10
  {
    ('0' as int + d) as char
  }

  /** `str(n)` for a natural number: canonical decimal digits. */
  function NatToString(n: nat): (r: string)
    ensures |r| >= 1 && AllDigits(r) && DigitsValue(r) == n
    ensures |r| > 1 ==> r[0] != '0'
    decreases n
  {
    if n < 10 then [DigitChar(n)]
    else
      var r := NatToString(n / 10) + [DigitChar(n % 10)];
      assert r[..|r| - 1] == NatToString(n / 10);
      r
  }

  /** `str(i)`. */
  function IntToString(i: int): string {
    if i < 0 then "-" + NatToString(-i) else NatToString(i)
  }

  /** `int(str(i)) == i`. */
  lemma ParseIntToString(i: int)
    ensures ParseInt(IntToString(i)) == Some(i)
  {
    if i < 0 {
      assert IntToString(i)[1..] == NatToString(-i);
    }
  }
}
