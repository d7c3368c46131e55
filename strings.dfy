/**
 * The parts of Python's `str` that the markdown pipeline relies on:
 * `startswith`, `endswith`, `find`, `split(sep)`, `split(sep, 1)`, `join`,
 * `strip`, `lstrip(chars)`, `count`, `isdigit`, `int(...)` and `str(n)`.
 */
module Strings {
  import opened Wrappers

  predicate StartsWith(s: string, prefix: string) {
    |prefix| <= |s| && s[..|prefix|] == prefix
  }

  predicate EndsWith(s: string, suffix: string) {
    |suffix| <= |s| && s[|s| - |suffix|..] == suffix
  }

  /** `p` occurs in `s` starting at index `i`. */
  predicate OccursAt(s: string, p: string, i: nat) {
    i + |p| <= |s| && s[i..i + |p|] == p
  }

  /** `p` occurs nowhere in `s`. */
  predicate Absent(s: string, p: string) {
    forall i: nat :: i <= |s| ==> !OccursAt(s, p, i)
  }

  /** `s.find(p, i)`, with `None` for Python's `-1`: the first occurrence at or after `i`. */
  function FindFrom(s: string, p: string, i: nat): (r: Option<nat>)
    requires i <= |s|
    ensures r.Some? ==> i <= r.value <= |s| && OccursAt(s, p, r.value)
    ensures r.Some? ==> forall j: nat :: i <= j < r.value ==> !OccursAt(s, p, j)
    ensures r.None? ==> forall j: nat :: i <= j <= |s| ==> !OccursAt(s, p, j)
    decreases |s| - i
  {
    if OccursAt(s, p, i) then Some(i)
    else if i == |s| then None
    else FindFrom(s, p, i + 1)
  }

  /** `s.find(p)`. */
  function Find(s: string, p: string): (r: Option<nat>)
    ensures r.Some? ==> OccursAt(s, p, r.value) && forall j: nat :: j < r.value ==> !OccursAt(s, p, j)
    ensures r.None? <==> Absent(s, p)
  {
    var r := FindFrom(s, p, 0);
    assert r.Some? ==> !Absent(s, p) by {
      if r.Some? {
        assert OccursAt(s, p, r.value);
      }
    }
    r
  }

  /** The first occurrence of `p` comes no later than any occurrence. */
  lemma FindAtMost(s: string, p: string, k: nat)
    requires OccursAt(s, p, k)
    ensures Find(s, p).Some? && Find(s, p).value <= k
  {
  }

  /** An occurrence found in a prefix is still the first one after anything is appended. */
  lemma FindInPrefix(x: string, y: string, p: string)
    requires Find(x, p).Some?
    ensures Find(x + y, p) == Find(x, p)
  {
    var i := Find(x, p).value;
    assert (x + y)[i..i + |p|] == x[i..i + |p|];
    FindAtMost(x + y, p, i);
    var v := Find(x + y, p).value;
    if v < i {
      assert (x + y)[v..v + |p|] == x[v..v + |p|];
      assert OccursAt(x, p, v);
    }
  }

  /** `s.split(sep)` for a non-empty `sep`: the pieces between leftmost non-overlapping occurrences. */
  function Split(s: string, sep: string): (pieces: seq<string>)
    requires sep != []
    ensures |pieces| >= 1
    decreases |s|
  {
    match Find(s, sep)
    case None => [s]
    case Some(i) => [s[..i]] + Split(s[i + |sep|..], sep)
  }

  /** `s.split(sep, 1)`: two pieces around the first occurrence, or `[s]` when there is none. */
  function SplitFirst(s: string, sep: string): (parts: seq<string>)
    requires sep != []
    ensures 1 <= |parts| <= 2
    ensures |parts| == 2 <==> Find(s, sep).Some?
    ensures |parts| == 2 ==> parts[0] + sep + parts[1] == s
    ensures |parts| == 2 ==> parts[0] == s[..Find(s, sep).value]
    ensures |parts| == 2 ==> parts[1] == s[Find(s, sep).value + |sep|..]
    ensures |parts| == 1 ==> parts[0] == s
  {
    match Find(s, sep)
    case None => [s]
    case Some(i) =>
      assert s == s[..i] + sep + s[i + |sep|..];
      [s[..i], s[i + |sep|..]]
  }

  /** `sep.join(parts)`. */
  function Join(parts: seq<string>, sep: string): string
    decreases |parts|
  {
    if |parts| == 0 then ""
    else if |parts| == 1 then parts[0]
    else parts[0] + sep + Join(parts[1..], sep)
  }

  /** `"".join(parts)`. */
  function Concat(parts: seq<string>): string
    decreases |parts|
  {
    if |parts| == 0 then "" else parts[0] + Concat(parts[1..])
  }

  /** Concatenation of sequences is associative. */
  lemma AppendAssociative<T>(a: seq<T>, b: seq<T>, c: seq<T>)
    ensures a + (b + c) == (a + b) + c
  {
  }

  /** A non-empty sequence is its head followed by its tail. */
  lemma HeadTail<T>(s: seq<T>)
    requires s != []
    ensures s == [s[0]] + s[1..]
  {
  }

  /** Past the head, `[x] + s` is `s` shifted by one. */
  lemma ConsIndex<T>(x: T, s: seq<T>)
    ensures |[x] + s| == |s| + 1 && ([x] + s)[0] == x
    ensures forall k :: 1 <= k <= |s| ==> ([x] + s)[k] == s[k - 1]
  {
  }

  /** Concatenating an append is concatenating each side. */
  lemma ConcatAppend(a: seq<string>, b: seq<string>)
    ensures Concat(a + b) == Concat(a) + Concat(b)
    decreases |a|
  {
    if a == [] {
      assert a + b == b;
    } else {
      assert (a + b)[0] == a[0];
      assert (a + b)[1..] == a[1..] + b;
      ConcatAppend(a[1..], b);
    }
  }

  /** Unfolds `Split` at an occurrence found by `Find`. */
  lemma SplitAt(s: string, sep: string, i: nat)
    requires sep != [] && Find(s, sep) == Some(i)
    ensures Split(s, sep) == [s[..i]] + Split(s[i + |sep|..], sep)
  {
  }

  /** Joining the pieces of a split with the separator gives back the string. */
  lemma {:induction false} JoinSplit(s: string, sep: string)
    requires sep != []
    ensures Join(Split(s, sep), sep) == s
    decreases |s|
  {
    var f := Find(s, sep);
    if f.Some? {
      var i := f.value;
      var rest := s[i + |sep|..];
      var tail := Split(rest, sep);
      SplitAt(s, sep, i);
      JoinSplit(rest, sep);
      var parts := [s[..i]] + tail;
      assert parts[1..] == tail;
      assert Join(parts, sep) == s[..i] + sep + Join(tail, sep);
      assert s[i..i + |sep|] == sep;
      assert s == s[..i] + sep + rest;
    }
  }

  /** No piece of a split contains the separator. */
  lemma {:induction false} SplitPiecesAbsent(s: string, sep: string)
    requires sep != []
    ensures forall k :: 0 <= k < |Split(s, sep)| ==> Absent(Split(s, sep)[k], sep)
    decreases |s|
  {
    match Find(s, sep)
    case None =>
    case Some(i) =>
      var rest := s[i + |sep|..];
      SplitAt(s, sep, i);
      SplitPiecesAbsent(rest, sep);
      forall j: nat | j <= i
        ensures !OccursAt(s[..i], sep, j)
      {
        if j + |sep| <= i {
          assert s[..i][j..j + |sep|] == s[j..j + |sep|];
          assert !OccursAt(s, sep, j);
        }
      }
      var tail := Split(rest, sep);
      assert Split(s, sep) == [s[..i]] + tail;
      forall k | 0 <= k < |Split(s, sep)|
        ensures Absent(Split(s, sep)[k], sep)
      {
        if k > 0 {
          assert Split(s, sep)[k] == tail[k - 1];
        }
      }
  }

  /** A string without the separator splits into itself. */
  lemma SplitAbsent(s: string, sep: string)
    requires sep != [] && Absent(s, sep)
    ensures Split(s, sep) == [s]
  {
  }

  /** In `part + sep`, the first occurrence of `sep` is the one just after `part`. */
  predicate EndsAtSeparator(part: string, sep: string) {
    Find(part + sep, sep) == Some(|part|)
  }

  /**
   * Splitting a join gives back the parts when, in each part but the last,
   * the separator first occurs exactly where the join puts it.
   */
  lemma {:induction false} SplitJoin(parts: seq<string>, sep: string)
    requires sep != [] && parts != []
    requires forall k :: 0 <= k < |parts| - 1 ==> EndsAtSeparator(parts[k], sep)
    requires Absent(parts[|parts| - 1], sep)
    ensures Split(Join(parts, sep), sep) == parts
    decreases |parts|
  {
    if |parts| > 1 {
      var tail := parts[1..];
      SplitJoinStep(parts[0], tail, sep);
      assert forall k :: 0 <= k < |tail| - 1 ==> tail[k] == parts[k + 1];
      SplitJoin(tail, sep);
      assert parts == [parts[0]] + tail;
    }
  }

  /** Splitting a join peels off its first part when that part ends at the separator. */
  lemma SplitJoinStep(head: string, tail: seq<string>, sep: string)
    requires sep != [] && tail != [] && EndsAtSeparator(head, sep)
    ensures Split(Join([head] + tail, sep), sep) == [head] + Split(Join(tail, sep), sep)
  {
    var parts := [head] + tail;
    var rest := Join(tail, sep);
    var joined := Join(parts, sep);
    assert parts[1..] == tail;
    assert joined == (head + sep) + rest;
    FindInPrefix(head + sep, rest, sep);
    assert joined[..|head|] == head;
    assert joined[|head| + |sep|..] == rest;
    SplitAt(joined, sep, |head|);
  }

  /** With a one-character separator, a part's first occurrence is its end iff the part lacks that character. */
  lemma FindSingleSeparator(part: string, c: char)
    requires c !in part
    ensures EndsAtSeparator(part, [c])
  {
    var t := part + [c];
    assert t[|part|..|part| + 1] == [c];
    assert OccursAt(t, [c], |part|);
    FindAtMost(t, [c], |part|);
    var v := Find(t, [c]).value;
    assert t[v..v + 1] == [c];
    assert t[v] == t[v..v + 1][0] == c;
    assert forall k :: 0 <= k < |part| ==> t[k] == part[k];
  }

  lemma AbsentSingle(s: string, c: char)
    requires c !in s
    ensures Absent(s, [c])
  {
    forall j: nat | j <= |s|
      ensures !OccursAt(s, [c], j)
    {
      if j + 1 <= |s| {
        assert s[j..j + 1] == [s[j]];
      }
    }
  }

  lemma AbsentSingleChar(s: string, c: char)
    requires Absent(s, [c])
    ensures c !in s
  {
    if c in s {
      var j :| 0 <= j < |s| && s[j] == c;
      assert s[j..j + 1] == [c];
      assert OccursAt(s, [c], j);
    }
  }

  /** Lines without the separator character split back out of their join. */
  lemma SplitJoinLines(parts: seq<string>, c: char)
    requires parts != [] && forall k :: 0 <= k < |parts| ==> c !in parts[k]
    ensures Split(Join(parts, [c]), [c]) == parts
  {
    forall k | 0 <= k < |parts| - 1
      ensures EndsAtSeparator(parts[k], [c])
    {
      FindSingleSeparator(parts[k], c);
    }
    AbsentSingle(parts[|parts| - 1], c);
    SplitJoin(parts, [c]);
  }

  /** The first piece of a split is a prefix of the string. */
  lemma SplitHeadPrefix(s: string, sep: string)
    requires sep != []
    ensures StartsWith(s, Split(s, sep)[0])
  {
  }

  /** A join starts with its first part. */
  lemma JoinHead(parts: seq<string>, sep: string)
    requires parts != []
    ensures StartsWith(Join(parts, sep), parts[0])
  {
    if |parts| > 1 {
      var j := Join(parts, sep);
      assert j == parts[0] + (sep + Join(parts[1..], sep));
      assert j[..|parts[0]|] == parts[0];
    }
  }

  /** A string whose first character differs from the prefix's does not start with it. */
  lemma NotStartsWith(s: string, p: string)
    requires p != [] && (s == [] || s[0] != p[0])
    ensures !StartsWith(s, p)
  {
    if |p| <= |s| {
      assert s[..|p|][0] == s[0];
    }
  }

  /** A whitespace-only string splits into whitespace-only pieces. */
  lemma {:induction false} SplitAllSpace(s: string, sep: string)
    requires sep != [] && AllSpace(s)
    ensures forall k :: 0 <= k < |Split(s, sep)| ==> AllSpace(Split(s, sep)[k])
    decreases |s|
  {
    match Find(s, sep)
    case None =>
    case Some(i) =>
      var rest := s[i + |sep|..];
      assert forall j :: 0 <= j < |rest| ==> rest[j] == s[i + |sep| + j];
      SplitAllSpace(rest, sep);
      SplitAt(s, sep, i);
      ConsIndex(s[..i], Split(rest, sep));
  }

  // ---------------------------------------------------------------------
  // Whitespace and stripping
  // ---------------------------------------------------------------------

  /** Python's `str.isspace` on one character. */
  predicate IsSpace(c: char) {
    || c == ' '
    || '\t' <= c <= '\r'
    || '\U{1c}' <= c <= '\U{1f}'
    || c == '\U{85}' || c == '\U{a0}' || c == '\U{1680}'
    || '\U{2000}' <= c <= '\U{200a}'
    || c == '\U{2028}' || c == '\U{2029}' || c == '\U{202f}' || c == '\U{205f}' || c == '\U{3000}'
  }

  predicate AllSpace(s: string) {
    forall i :: 0 <= i < |s| ==> IsSpace(s[i])
  }

  /** `s.lstrip()`: the longest suffix that does not start with whitespace. */
  function LStrip(s: string): (r: string)
    ensures |r| <= |s| && r == s[|s| - |r|..]
    ensures AllSpace(s[..|s| - |r|])
    ensures r == [] || !IsSpace(r[0])
    decreases |s|
  {
    if s != [] && IsSpace(s[0]) then
      var r := LStrip(s[1..]);
      assert s[..|s| - |r|] == [s[0]] + s[1..][..|s| - 1 - |r|];
      r
    else s
  }

  /** `s.rstrip()`: the longest prefix that does not end with whitespace. */
  function RStrip(s: string): (r: string)
    ensures |r| <= |s| && r == s[..|r|]
    ensures AllSpace(s[|r|..])
    ensures r == [] || !IsSpace(r[|r| - 1])
    decreases |s|
  {
    if s != [] && IsSpace(s[|s| - 1]) then
      var r := RStrip(s[..|s| - 1]);
      assert s[|r|..] == s[..|s| - 1][|r|..] + [s[|s| - 1]];
      r
    else s
  }

  /** `s.strip()`. */
  function Strip(s: string): (r: string)
    ensures r == [] || (!IsSpace(r[0]) && !IsSpace(r[|r| - 1]))
  {
    var l := LStrip(s);
    var r := RStrip(l);
    assert r != [] ==> r[0] == l[0];
    r
  }

  /** `strip` removes whitespace only from the ends: the result is a slice of `s`. */
  lemma StripSlice(s: string)
    ensures exists i, j :: (0 <= i <= j <= |s| && Strip(s) == s[i..j]
      && AllSpace(s[..i]) && AllSpace(s[j..]))
  {
    var l := LStrip(s);
    var i := |s| - |l|;
    var j := i + |RStrip(l)|;
    assert Strip(s) == s[i..j];
    assert s[j..] == l[|RStrip(l)|..];
  }

  /** Only an all-whitespace string strips to nothing. */
  lemma StripEmpty(s: string)
    ensures Strip(s) == [] <==> AllSpace(s)
  {
    var l := LStrip(s);
    if Strip(s) == [] {
      assert s == s[..|s| - |l|] + l;
      assert l == l[|RStrip(l)|..];
    }
  }

  /** Stripping a stripped string changes nothing. */
  lemma StripIdempotent(s: string)
    ensures Strip(Strip(s)) == Strip(s)
  {
    var t := Strip(s);
    if t != [] {
      assert LStrip(t) == t;
      assert RStrip(t) == t;
    }
  }

  /** A string whose ends are not whitespace is its own `strip`. */
  lemma StripNoop(s: string)
    requires s == [] || (!IsSpace(s[0]) && !IsSpace(s[|s| - 1]))
    ensures Strip(s) == s
  {
  }

  /** `s.lstrip(chars)` with a single character: drop every leading `c`. */
  function LStripChar(s: string, c: char): (r: string)
    ensures |r| <= |s| && r == s[|s| - |r|..]
    ensures forall i :: 0 <= i < |s| - |r| ==> s[i] == c
    ensures r == [] || r[0] != c
    decreases |s|
  {
    if s != [] && s[0] == c then LStripChar(s[1..], c) else s
  }

  /** `s.count(c, 0, end)` for one character: occurrences of `c` among the first `end` characters. */
  function CountChar(s: string, c: char): nat
    decreases |s|
  {
    if s == [] then 0 else CountChar(s[..|s| - 1], c) + (if s[|s| - 1] == c then 1 else 0)
  }

  /** A run of `n` copies of one character. */
  function Repeat(c: char, n: nat): (r: string)
    ensures |r| == n && forall i :: 0 <= i < n ==> r[i] == c
  {
    if n == 0 then [] else Repeat(c, n - 1) + [c]
  }

  /** A string that starts with `k` copies of `c` counts at least `k` of them. */
  lemma {:induction false} CountCharAtLeast(s: string, c: char, k: nat)
    requires k <= |s| && forall i :: 0 <= i < k ==> s[i] == c
    ensures CountChar(s, c) >= k
    decreases |s|
  {
    if k > 0 {
      var init := s[..|s| - 1];
      if |s| > k {
        CountCharAtLeast(init, c, k);
      } else {
        CountCharAtLeast(init, c, k - 1);
      }
    }
  }

  lemma {:induction false} CountRepeat(c: char, n: nat)
    ensures CountChar(Repeat(c, n), c) == n
  {
    if n > 0 {
      assert Repeat(c, n)[..n - 1] == Repeat(c, n - 1);
      CountRepeat(c, n - 1);
    }
  }

  /** Python's slice `s[start:]`, which clamps an index past the end. */
  function Drop(s: string, start: nat): (r: string)
    ensures |r| == if start <= |s| then |s| - start else 0
  {
    if start <= |s| then s[start..] else []
  }

  // ---------------------------------------------------------------------
  // Digits (ASCII)
  // ---------------------------------------------------------------------

  predicate IsDigit(c: char) {
    '0' <= c <= '9'
  }

  /** `s.isdigit()` on ASCII text: non-empty and every character a digit. */
  predicate IsDigits(s: string) {
    |s| > 0 && forall i :: 0 <= i < |s| ==> IsDigit(s[i])
  }

  /** `int(s)` for a string of ASCII digits. */
  function DigitsValue(s: string): nat
    requires forall i :: 0 <= i < |s| ==> IsDigit(s[i])
    decreases |s|
  {
    if s == [] then 0
    else
      assert IsDigit(s[|s| - 1]);
      DigitsValue(s[..|s| - 1]) * 10 + (s[|s| - 1] as int - '0' as int)
  }

  /** `str(n)`: decimal notation without leading zeros. */
  function NatToString(n: nat): (r: string)
    ensures IsDigits(r)
    ensures DigitsValue(r) == n
    ensures r[0] == '0' ==> n == 0
    decreases n
  {
    var last := [('0' as int + n % 10) as char];
    if n < 10 then last
    else
      var r := NatToString(n / 10) + last;
      assert r[..|r| - 1] == NatToString(n / 10);
      r
  }
}
