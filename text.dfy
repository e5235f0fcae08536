/**
 * Character classes and string helpers shared by the converter, restricted to ASCII.
 *
 * Python's `str.isspace`, `str.strip` and the regular-expression class `\s` agree on
 * which characters are whitespace; on ASCII these are tab, line feed, vertical tab,
 * form feed, carriage return, the four information separators 0x1C-0x1F and space.
 */
module Text {

  datatype Option<T> = None | Some(value: T)

  /** Whitespace as `str.isspace` and `\s` see it, on ASCII. */
  predicate IsSpace(c: char) {
    9 <= c as int <= 13 || 28 <= c as int <= 32
  }

  predicate IsUpper(c: char) { 'A' <= c <= 'Z' }
  predicate IsLower(c: char) { 'a' <= c <= 'z' }
  predicate IsLetter(c: char) { IsUpper(c) || IsLower(c) }
  predicate IsDigit(c: char) { '0' <= c <= '9' }

  predicate AllSpace(s: string) {
    forall i :: 0 <= i < |s| ==> IsSpace(s[i])
  }

  /** `str.lower` on one character. */
  function ToLower(c: char): (r: char)
    ensures IsUpper(c) ==> IsLower(r) && r as int == c as int + 32
    ensures !IsUpper(c) ==> r == c
  {
    if IsUpper(c) then (c as int + 32) as char else c
  }

  /** `str.upper` (and `str.title`'s titlecase mapping) on one character. */
  function ToUpper(c: char): (r: char)
    ensures IsLower(c) ==> IsUpper(r) && r as int == c as int - 32
    ensures !IsLower(c) ==> r == c
  {
    if IsLower(c) then (c as int - 32) as char else c
  }

  /** `str.lower` on a string. */
  function Lower(s: string): (r: string)
    ensures |r| == |s|
    ensures forall i :: 0 <= i < |s| ==> r[i] == ToLower(s[i])
  {
    seq(|s|, i requires 0 <= i < |s| => ToLower(s[i]))
  }

  lemma LowerIdempotent(s: string)
    ensures Lower(Lower(s)) == Lower(s)
  {
  }

  /** `str.replace(a, b)` for one-character `a` and `b`. */
  function ReplaceChar(s: string, a: char, b: char): (r: string)
    ensures |r| == |s|
    ensures forall i :: 0 <= i < |s| ==> r[i] == (if s[i] == a then b else s[i])
  {
    seq(|s|, i requires 0 <= i < |s| => if s[i] == a then b else s[i])
  }

  predicate StartsWith(s: string, prefix: string) {
    |prefix| <= |s| && s[..|prefix|] == prefix
  }

  predicate EndsWith(s: string, suffix: string) {
    |suffix| <= |s| && s[|s| - |suffix|..] == suffix
  }

  /** The index of the first `c` at or after `from`, or `|s|` when there is none. */
  function IndexFrom(s: string, c: char, from: nat): (r: nat)
    requires from <= |s|
    ensures from <= r <= |s|
    ensures forall i :: from <= i < r ==> s[i] != c
    ensures r < |s| ==> s[r] == c
    decreases |s| - from
  {
    if from == |s| || s[from] == c then from else IndexFrom(s, c, from + 1)
  }

  /** A slice holds a character only if the range it was cut from does. */
  lemma NotInSlice(s: string, lo: nat, hi: nat, c: char)
    requires lo <= hi <= |s|
    requires forall i :: lo <= i < hi ==> s[i] != c
    ensures c !in s[lo..hi]
  {
    forall i | 0 <= i < hi - lo
      ensures s[lo..hi][i] != c
    {
      assert s[lo..hi][i] == s[lo + i];
    }
  }

  /** `str.lstrip()`: drop leading whitespace. */
  function StripLeft(s: string): (r: string)
    ensures |r| <= |s| && r == s[|s| - |r|..]
    ensures forall i :: 0 <= i < |s| - |r| ==> IsSpace(s[i])
    ensures r == [] || !IsSpace(r[0])
    decreases |s|
  {
    if s != [] && IsSpace(s[0]) then StripLeft(s[1..]) else s
  }

  /** `str.rstrip()`: drop trailing whitespace. */
  function StripRight(s: string): (r: string)
    ensures |r| <= |s| && r == s[..|r|]
    ensures forall i :: |r| <= i < |s| ==> IsSpace(s[i])
    ensures r == [] || !IsSpace(r[|r| - 1])
    decreases |s|
  {
    if s != [] && IsSpace(s[|s| - 1]) then StripRight(s[..|s| - 1]) else s
  }

  /** The end of the whitespace run that starts at `from`: the `\s+` of a substitution
      and the `\s*` of a split take the whole run. */
  function SpaceRunEnd(s: string, from: nat): (e: nat)
    requires from <= |s|
    ensures from <= e <= |s|
    ensures forall i :: from <= i < e ==> IsSpace(s[i])
    ensures e < |s| ==> !IsSpace(s[e])
    decreases |s| - from
  {
    if from < |s| && IsSpace(s[from]) then SpaceRunEnd(s, from + 1) else from
  }

  /** No whitespace at either end. */
  predicate Trimmed(r: string) {
    r == [] || (!IsSpace(r[0]) && !IsSpace(r[|r| - 1]))
  }

  /** `r` is the slice of `s` at offset `a`, with only whitespace before and after it. */
  predicate TrimmedAt(s: string, r: string, a: nat) {
    && a + |r| <= |s|
    && (forall i :: 0 <= i < |r| ==> r[i] == s[a + i])
    && (forall i :: 0 <= i < a ==> IsSpace(s[i]))
    && (forall i :: a + |r| <= i < |s| ==> IsSpace(s[i]))
  }

  /** `str.strip()`: drop leading and trailing whitespace. What is left is a slice of
      the text with only whitespace around it and none at its own ends; it is empty
      exactly for whitespace-only text, and text without whitespace at its ends is kept
      whole. */
  function Strip(s: string): (r: string)
    ensures exists a :: TrimmedAt(s, r, a)
    ensures |r| <= |s| && Trimmed(r)
    ensures r == [] <==> AllSpace(s)
    ensures Trimmed(s) ==> r == s
  {
    StripEmptyIffAllSpace(s);
    StripIsMiddle(s);
    var r := StripRight(StripLeft(s));
    assert TrimmedAt(s, r, |s| - |StripLeft(s)|) && Trimmed(r);
    r
  }

  /** Stripping keeps the middle of the text, at the offset where the leading
      whitespace ends. */
  lemma StripIsMiddle(s: string)
    ensures TrimmedAt(s, StripRight(StripLeft(s)), |s| - |StripLeft(s)|)
    ensures Trimmed(StripRight(StripLeft(s)))
  {
    MiddleOf(s, StripLeft(s), StripRight(StripLeft(s)));
  }

  /** A whitespace-led suffix `l` of `s` and a whitespace-trailed prefix `r` of `l`:
      `r` sits in `s` where `l` starts. */
  lemma MiddleOf(s: string, l: string, r: string)
    requires |l| <= |s| && l == s[|s| - |l|..]
    requires forall i :: 0 <= i < |s| - |l| ==> IsSpace(s[i])
    requires |r| <= |l| && r == l[..|r|]
    requires forall i :: |r| <= i < |l| ==> IsSpace(l[i])
    requires l == [] || !IsSpace(l[0])
    requires r == [] || !IsSpace(r[|r| - 1])
    ensures TrimmedAt(s, r, |s| - |l|)
    ensures Trimmed(r)
  {
    if r != [] {
      assert r[0] == l[0];
    }
    var a := |s| - |l|;
    forall i | 0 <= i < |r|
      ensures r[i] == s[a + i]
    {
      assert r[i] == l[i] && l[i] == s[a + i];
    }
    forall i | a + |r| <= i < |s|
      ensures IsSpace(s[i])
    {
      assert s[i] == l[i - a];
    }
  }

  lemma Assoc<T>(x: seq<T>, y: seq<T>, z: seq<T>)
    ensures x + y + z == x + (y + z)
  {
  }

  /** Stripping both ends gives the empty string exactly on whitespace-only input. */
  lemma {:induction false} StripEmptyIffAllSpace(s: string)
    ensures StripRight(StripLeft(s)) == [] <==> AllSpace(s)
  {
    var l := StripLeft(s);
    if !AllSpace(s) {
      var i :| 0 <= i < |s| && !IsSpace(s[i]);
      assert i >= |s| - |l|;
      var k := i - (|s| - |l|);
      assert l[k] == s[i] && !IsSpace(l[k]);
      assert |StripRight(l)| > k;
    }
  }

  /** `sep.join(xs)`. */
  function Join(sep: string, xs: seq<string>): string
    decreases |xs|
  {
    if |xs| == 0 then []
    else if |xs| == 1 then xs[0]
    else xs[0] + sep + Join(sep, xs[1..])
  }

  /** Every character of a piece appears in the joined text. */
  lemma {:induction false} JoinKeepsPieces(sep: string, xs: seq<string>, i: nat, c: char)
    requires i < |xs| && c in xs[i]
    ensures c in Join(sep, xs)
    decreases |xs|
  {
    if |xs| > 1 {
      var rest := Join(sep, xs[1..]);
      assert Join(sep, xs) == xs[0] + sep + rest;
      if i > 0 {
        JoinKeepsPieces(sep, xs[1..], i - 1, c);
      }
    }
  }

  /** `s.split(c)` for a one-character separator: never empty, no piece holds `c`, and
      joining the pieces back with `c` gives `s`. */
  function SplitOn(s: string, c: char): (ps: seq<string>)
    ensures |ps| >= 1
    ensures forall i :: 0 <= i < |ps| ==> c !in ps[i]
    ensures Join([c], ps) == s
    decreases |s|
  {
    var n := IndexFrom(s, c, 0);
    if n == |s| then
      assert forall j :: 0 <= j < |s| ==> s[j] != c;
      [s]
    else
      var rest := SplitOn(s[n + 1..], c);
      assert forall j :: 0 <= j < n ==> s[..n][j] != c;
      assert s == s[..n] + [c] + s[n + 1..];
      [s[..n]] + rest
  }

  /** Splitting what `Join` built gives back the pieces, when no piece holds the separator. */
  lemma {:induction false} SplitOnJoin(ps: seq<string>, c: char)
    requires |ps| >= 1
    requires forall i :: 0 <= i < |ps| ==> c !in ps[i]
    ensures SplitOn(Join([c], ps), c) == ps
    decreases |ps|
  {
    if |ps| == 1 {
      SplitOnNone(ps[0], c);
    } else {
      var head, rest := ps[0], ps[1..];
      assert Join([c], ps) == head + [c] + Join([c], rest);
      SplitOnFirst(head, c, Join([c], rest));
      SplitOnJoin(rest, c);
      assert ps == [head] + rest;
    }
  }

  /** A text without `c` is one piece. */
  lemma SplitOnNone(s: string, c: char)
    requires c !in s
    ensures SplitOn(s, c) == [s]
  {
    IndexFromIs(s, c, 0, |s|);
  }

  /** The first `c` ends the first piece. */
  lemma SplitOnFirst(head: string, c: char, tail: string)
    requires c !in head
    ensures SplitOn(head + [c] + tail, c) == [head] + SplitOn(tail, c)
  {
    var s := head + [c] + tail;
    var n := |head|;
    forall j | 0 <= j < n
      ensures s[j] != c
    {
      assert s[j] == head[j];
    }
    IndexFromIs(s, c, 0, n);
    assert s[..n] == head;
    assert s[n + 1..] == tail;
  }

  /** Joining splits at any inner position into the join of the front, the separator
      and the join of the back. */
  lemma {:induction false} JoinSplit(sep: string, xs: seq<string>, i: nat)
    requires 0 < i < |xs|
    ensures Join(sep, xs) == Join(sep, xs[..i]) + sep + Join(sep, xs[i..])
    decreases i
  {
    if i > 1 {
      var tail := xs[1..];
      JoinSplit(sep, tail, i - 1);
      assert xs[..i][1..] == tail[..i - 1];
      assert tail[i - 1..] == xs[i..];
      assert Join(sep, xs[..i]) == xs[0] + sep + Join(sep, tail[..i - 1]);
    } else {
      assert xs[..1] == [xs[0]];
    }
  }

  /** The first `c` at or after `from` is at `k` when `k` holds `c` (or is the end) and
      nothing between holds it. */
  lemma IndexFromIs(s: string, c: char, from: nat, k: nat)
    requires from <= k <= |s|
    requires forall i :: from <= i < k ==> s[i] != c
    requires k == |s| || s[k] == c
    ensures IndexFrom(s, c, from) == k
  {
  }

  /** Appending a separator and a piece without it adds that piece to the split. */
  lemma {:induction false} SplitOnSnoc(s: string, c: char, t: string)
    requires forall i :: 0 <= i < |t| ==> t[i] != c
    ensures SplitOn(s + [c] + t, c) == SplitOn(s, c) + [t]
    decreases |s|
  {
    assert c !in t;
    SplitOnNone(t, c);
    var n := IndexFrom(s, c, 0);
    if n == |s| {
      assert c !in s;
      SplitOnNone(s, c);
      SplitOnFirst(s, c, t);
    } else {
      var head, rest := s[..n], s[n + 1..];
      assert c !in head;
      assert s == head + [c] + rest;
      SplitOnFirst(head, c, rest);
      Regroup(head, [c], rest, [c], t);
      SplitOnFirst(head, c, rest + [c] + t);
      SplitOnSnoc(rest, c, t);
      Assoc([head], SplitOn(rest, c), [t]);
    }
  }

  lemma Regroup<T>(x: seq<T>, y: seq<T>, z: seq<T>, u: seq<T>, v: seq<T>)
    ensures x + y + z + u + v == x + y + (z + u + v)
  {
  }

  /** The lines of `s`, as `s.split('\n')` gives them. */
  function Lines(s: string): (ls: seq<string>)
    ensures |ls| >= 1
    ensures forall i :: 0 <= i < |ls| ==> '\n' !in ls[i]
    ensures Unlines(ls) == s
  {
    SplitOn(s, '\n')
  }

  /** `'\n'.join(ls)`. */
  function Unlines(ls: seq<string>): string {
    Join("\n", ls)
  }

  /** A first line without a line break, then the rest. */
  lemma LinesCons(a: string, b: string)
    requires forall i :: 0 <= i < |a| ==> a[i] != '\n'
    ensures Lines(a + "\n" + b) == [a] + Lines(b)
  {
    var s := a + "\n" + b;
    IndexFromIs(s, '\n', 0, |a|);
    assert s[..|a|] == a;
    assert s[|a| + 1..] == b;
  }

  lemma LinesOfUnlines(ls: seq<string>)
    requires |ls| >= 1
    requires forall i :: 0 <= i < |ls| ==> '\n' !in ls[i]
    ensures Lines(Unlines(ls)) == ls
  {
    SplitOnJoin(ls, '\n');
  }
}
