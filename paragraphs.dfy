/**
 * Paragraph segmentation, the last stage of `markdown_to_html`: the stripped text is
 * split with `re.split(r'\n\s*\n', ...)`, every piece is stripped, empty pieces are
 * dropped, pieces that already open with a heading or list tag are kept as they are,
 * the others become `<p>` elements with their line breaks turned into spaces, and the
 * blocks are joined by a fixed separator.
 */
module Paragraphs {
  import opened Text

  /** `t` as a whole matches `\n\s*\n`: a newline, any whitespace, a newline. */
  predicate IsBlankSep(t: string) {
    |t| >= 2 && t[0] == '\n' && t[|t| - 1] == '\n' && AllSpace(t)
  }

  /** `p` holds a blank line: some slice of it matches `\n\s*\n`. */
  predicate HasBlankLine(p: string) {
    exists i, j {:trigger p[i..j]} :: 0 <= i <= j <= |p| && IsBlankSep(p[i..j])
  }

  /** The last newline in `s[lo..hi]`, scanning back from `hi`. */
  function LastNewline(s: string, lo: nat, hi: nat): (r: Option<nat>)
    requires lo <= hi <= |s|
    ensures r.Some? ==> (lo <= r.value < hi && s[r.value] == '\n'
                         && forall i :: r.value < i < hi ==> s[i] != '\n')
    ensures r.None? ==> forall i :: lo <= i < hi ==> s[i] != '\n'
    decreases hi - lo
  {
    if hi == lo then None
    else if s[hi - 1] == '\n' then Some(hi - 1)
    else LastNewline(s, lo, hi - 1)
  }

  /** The length of the match of `\n\s*\n` at the start of `s`. The greedy `\s*` takes
      the whole whitespace run and gives characters back until a newline ends it, so
      the match is the longest blank prefix of `s`. */
  function BlankSepAt(s: string): (r: Option<nat>)
    ensures r.Some? ==> (r.value <= |s| && IsBlankSep(s[..r.value])
                         && forall n {:trigger IsBlankSep(s[..n])} :: r.value < n <= |s| ==> !IsBlankSep(s[..n]))
    ensures r.None? ==> forall n {:trigger IsBlankSep(s[..n])} :: 0 <= n <= |s| ==> !IsBlankSep(s[..n])
  {
    if s != [] && s[0] == '\n' then
      var e := SpaceRunEnd(s, 1);
      match LastNewline(s, 1, e)
      case Some(l) =>
        BlankSepAtLongest(s, e, l);
        Some(l + 1)
      case None =>
        BlankSepAtNone(s, e);
        None
    else None
  }

  lemma BlankSepAtLongest(s: string, e: nat, l: nat)
    requires s != [] && s[0] == '\n' && 1 <= l < e <= |s|
    requires forall i :: 1 <= i < e ==> IsSpace(s[i])
    requires e < |s| ==> !IsSpace(s[e])
    requires s[l] == '\n' && forall i :: l < i < e ==> s[i] != '\n'
    ensures IsBlankSep(s[..l + 1])
    ensures forall n {:trigger IsBlankSep(s[..n])} :: l + 1 < n <= |s| ==> !IsBlankSep(s[..n])
  {
    assert IsSpace(s[0]);
    forall n | l + 1 < n <= |s|
      ensures !IsBlankSep(s[..n])
    {
      if n <= e {
        assert s[..n][n - 1] == s[n - 1] != '\n';
      } else {
        assert s[..n][e] == s[e];
      }
    }
  }

  lemma BlankSepAtNone(s: string, e: nat)
    requires s != [] && s[0] == '\n' && 1 <= e <= |s|
    requires forall i :: 1 <= i < e ==> IsSpace(s[i])
    requires e < |s| ==> !IsSpace(s[e])
    requires forall i :: 1 <= i < e ==> s[i] != '\n'
    ensures forall n {:trigger IsBlankSep(s[..n])} :: 0 <= n <= |s| ==> !IsBlankSep(s[..n])
  {
    forall n | 0 <= n <= |s|
      ensures !IsBlankSep(s[..n])
    {
      if 2 <= n {
        if n - 1 < e {
          assert s[..n][n - 1] == s[n - 1] != '\n';
        } else {
          assert s[..n][e] == s[e];
        }
      }
    }
  }

  /** The first offset at or after `from` where `\n\s*\n` matches, with the match's
      length. */
  function FindSep(s: string, from: nat): (r: Option<(nat, nat)>)
    requires from <= |s|
    ensures r.Some? ==> from <= r.value.0 && r.value.0 + r.value.1 <= |s| && 2 <= r.value.1
    decreases |s| - from
  {
    if from == |s| then None
    else
      match BlankSepAt(s[from..])
      case Some(n) => Some((from, n))
      case None => FindSep(s, from + 1)
  }

  /** `FindSep` finds a match, and the first one: no match starts earlier. */
  lemma {:induction false} FindSepFirst(s: string, from: nat)
    requires from <= |s|
    ensures var r := FindSep(s, from);
      (r.Some? ==> BlankSepAt(s[r.value.0..]) == Some(r.value.1))
      && forall q {:trigger BlankSepAt(s[q..])} ::
           from <= q <= |s| && (r.None? || q < r.value.0) ==> BlankSepAt(s[q..]).None?
    decreases |s| - from
  {
    if from == |s| {
      assert BlankSepAt(s[from..]).None?;
    } else if BlankSepAt(s[from..]).None? {
      FindSepFirst(s, from + 1);
    }
  }

  /** `re.split(r'\n\s*\n', s)`: the pieces between the left-to-right, non-overlapping
      separator matches. */
  function SplitBlank(s: string): (ps: seq<string>)
    ensures |ps| >= 1
    decreases |s|
  {
    match FindSep(s, 0)
    case Some((p, n)) => [s[..p]] + SplitBlank(s[p + n..])
    case None => [s]
  }

  /** No piece of the split holds a blank line. */
  lemma {:induction false} SplitPiecesHaveNoBlankLine(s: string)
    ensures forall i :: 0 <= i < |SplitBlank(s)| ==> !HasBlankLine(SplitBlank(s)[i])
    decreases |s|
  {
    FindSepFirst(s, 0);
    match FindSep(s, 0)
    case Some((p, n)) =>
      NoBlankLineBefore(s, p);
      SplitBlankUnfold(s, p, n);
      SplitPiecesHaveNoBlankLine(s[p + n..]);
    case None =>
      NoBlankLineBefore(s, |s|);
      assert s[..|s|] == s;
  }

  /** A slice before the first separator match holds no blank line. */
  lemma NoBlankLineBefore(s: string, p: nat)
    requires p <= |s|
    requires forall q {:trigger BlankSepAt(s[q..])} :: 0 <= q < p ==> BlankSepAt(s[q..]).None?
    ensures !HasBlankLine(s[..p])
  {
    forall a, b | 0 <= a <= b <= p
      ensures !IsBlankSep(s[..p][a..b])
    {
      if a < p {
        var t := s[a..];
        assert BlankSepAt(t).None?;
        assert !IsBlankSep(t[..b - a]);
        assert s[..p][a..b] == t[..b - a];
      }
    }
  }

  /** The separator matches that `SplitBlank` cut at, in order. */
  function BlankSeps(s: string): (seps: seq<string>)
    decreases |s|
  {
    match FindSep(s, 0)
    case Some((p, n)) => [s[p..p + n]] + BlankSeps(s[p + n..])
    case None => []
  }

  /** The pieces with the separators put back between them. */
  function Interleave(ps: seq<string>, seps: seq<string>): string
    requires |ps| == |seps| + 1
    decreases |seps|
  {
    if seps == [] then ps[0] else ps[0] + seps[0] + Interleave(ps[1..], seps[1..])
  }

  /** Splitting loses nothing: the pieces and the separators between them rebuild the
      text, and there is one separator fewer than pieces. */
  lemma {:induction false} SplitRoundTrip(s: string)
    ensures |SplitBlank(s)| == |BlankSeps(s)| + 1
    ensures Interleave(SplitBlank(s), BlankSeps(s)) == s
    decreases |s|
  {
    match FindSep(s, 0)
    case Some((p, n)) =>
      var rest := s[p + n..];
      SplitUnfold(s, p, n);
      SplitRoundTrip(rest);
      var ps := SplitBlank(s);
      var seps := BlankSeps(s);
      assert ps[1..] == SplitBlank(rest);
      assert seps[1..] == BlankSeps(rest);
    case None =>
  }

  /** One step of the split: the piece before the first match, the match, and the split
      of what follows. */
  lemma {:induction false} SplitUnfold(s: string, p: nat, n: nat)
    requires FindSep(s, 0) == Some((p, n))
    ensures p + n <= |s| && |s[p + n..]| < |s|
    ensures SplitBlank(s) == [s[..p]] + SplitBlank(s[p + n..])
    ensures BlankSeps(s) == [s[p..p + n]] + BlankSeps(s[p + n..])
    ensures s == s[..p] + s[p..p + n] + s[p + n..]
  {
    SplitBlankUnfold(s, p, n);
    BlankSepsUnfold(s, p, n);
  }

  lemma {:induction false} SplitBlankUnfold(s: string, p: nat, n: nat)
    requires FindSep(s, 0) == Some((p, n))
    ensures p + n <= |s| && SplitBlank(s) == [s[..p]] + SplitBlank(s[p + n..])
  {
  }

  lemma {:induction false} BlankSepsUnfold(s: string, p: nat, n: nat)
    requires FindSep(s, 0) == Some((p, n))
    ensures p + n <= |s| && BlankSeps(s) == [s[p..p + n]] + BlankSeps(s[p + n..])
  {
  }

  /** A text with no blank line is one piece. */
  lemma SplitWithoutBlankLine(s: string)
    requires !HasBlankLine(s)
    ensures SplitBlank(s) == [s]
  {
    SeparatorIsBlankLine(s);
  }

  /** A separator match is a blank line of the text. */
  lemma SeparatorIsBlankLine(s: string)
    ensures FindSep(s, 0).Some? ==> HasBlankLine(s)
  {
    FindSepFirst(s, 0);
    if FindSep(s, 0).Some? {
      var (p, n) := FindSep(s, 0).value;
      assert s[p..][..n] == s[p..p + n];
      assert IsBlankSep(s[p..p + n]);
    }
  }

  // ---------------------------------------------------------------------------------
  // Blocks
  // ---------------------------------------------------------------------------------

  /** The fixed separator `'\n            \n            '` the blocks are joined with. */
  const BlockSep: string := "\n            \n            "

  /** A block that is kept as it is: it opens with `<h`, `<ul` or `<ol`. */
  predicate IsMarkupStart(b: string) {
    StartsWith(b, "<h") || StartsWith(b, "<ul") || StartsWith(b, "<ol")
  }

  /** `b` is `<p>` + `q` with every newline made a space + `</p>`. */
  predicate IsParagraphOf(b: string, q: string) {
    |b| == |q| + 7 && b[..3] == "<p>" && b[|b| - 4..] == "</p>"
    && forall i :: 0 <= i < |q| ==> b[3 + i] == (if q[i] == '\n' then ' ' else q[i])
  }

  /** One iteration of the loop over the pieces: nothing for a blank piece, the stripped
      piece when it opens with markup, a `<p>` element otherwise. */
  function RenderBlock(p: string): (r: Option<string>)
    ensures r.None? <==> AllSpace(p)
    ensures r.Some? ==> r.value != []
    ensures r.Some? && IsMarkupStart(Strip(p)) ==> r.value == Strip(p)
    ensures r.Some? && !IsMarkupStart(Strip(p)) ==> IsParagraphOf(r.value, Strip(p)) && '\n' !in r.value
  {
    var q := Strip(p);
    if q == [] then None
    else if IsMarkupStart(q) then Some(q)
    else
      ParagraphShape(q);
      Some("<p>" + ReplaceChar(q, '\n', ' ') + "</p>")
  }

  lemma ParagraphShape(q: string)
    ensures var b := "<p>" + ReplaceChar(q, '\n', ' ') + "</p>"; IsParagraphOf(b, q) && '\n' !in b
  {
    var r := ReplaceChar(q, '\n', ' ');
    var b := "<p>" + r + "</p>";
    assert b[..3] == "<p>" && b[|b| - 4..] == "</p>";
    assert forall i :: 0 <= i < |q| ==> b[3 + i] == r[i];
    assert forall i :: 0 <= i < |b| ==> b[i] != '\n' by {
      assert forall i :: 0 <= i < |r| ==> r[i] != '\n';
    }
  }

  /** What one iteration appends: at most one block, and none exactly when the piece is
      whitespace. */
  function Emit(p: string): (bs: seq<string>)
    ensures |bs| <= 1
    ensures bs == [] <==> AllSpace(p)
  {
    match RenderBlock(p)
    case Some(b) => [b]
    case None => []
  }

  /** The blocks the loop appends for `ps`, in order. */
  function Processed(ps: seq<string>): (bs: seq<string>)
    ensures |bs| <= |ps|
    decreases |ps|
  {
    if ps == [] then [] else Processed(ps[..|ps| - 1]) + Emit(ps[|ps| - 1])
  }

  /** Blocks come out in source order: processing a concatenation is concatenating the
      processed parts. */
  lemma {:induction false} ProcessedAppend(a: seq<string>, b: seq<string>)
    ensures Processed(a + b) == Processed(a) + Processed(b)
    decreases |b|
  {
    if b == [] {
      assert a + b == a;
    } else {
      var b', last := b[..|b| - 1], b[|b| - 1];
      SnocSplit(b);
      ProcessedAppend(a, b');
      ProcessedSnocAfter(a, b', last);
      ProcessedSnoc(b', last);
      Assoc(Processed(a), Processed(b'), Emit(last));
    }
  }

  /** One more piece at the end appends what that piece yields. */
  lemma ProcessedSnoc(ps: seq<string>, last: string)
    ensures Processed(ps + [last]) == Processed(ps) + Emit(last)
  {
    var q := ps + [last];
    assert q[..|q| - 1] == ps;
  }

  /** Extending a prefix of the pieces by one appends what that piece yields. */
  lemma ProcessedPrefix(ps: seq<string>, i: nat)
    requires i < |ps|
    ensures Processed(ps[..i + 1]) == Processed(ps[..i]) + Emit(ps[i])
  {
    var q := ps[..i + 1];
    assert q[..i] == ps[..i];
  }

  lemma ProcessedSnocAfter(a: seq<string>, b: seq<string>, last: string)
    ensures Processed(a + (b + [last])) == Processed(a + b) + Emit(last)
  {
    SnocAssoc(a, b, last);
    ProcessedSnoc(a + b, last);
  }

  lemma SnocSplit<T>(b: seq<T>)
    requires b != []
    ensures b == b[..|b| - 1] + [b[|b| - 1]]
  {
  }

  lemma SnocAssoc<T>(a: seq<T>, b: seq<T>, last: T)
    ensures a + (b + [last]) == (a + b) + [last]
  {
  }

  /** A blank piece yields no block; any other yields exactly one. */
  lemma ProcessedSingle(p: string)
    ensures Processed([p]) == (if AllSpace(p) then [] else [RenderBlock(p).value])
  {
    ProcessedSnoc([], p);
    assert [] + [p] == [p];
  }

  /** Only blank pieces are dropped: nothing comes out exactly when every piece is
      whitespace. */
  lemma {:induction false} ProcessedEmptyIff(ps: seq<string>)
    ensures Processed(ps) == [] <==> forall i :: 0 <= i < |ps| ==> AllSpace(ps[i])
    decreases |ps|
  {
    if ps != [] {
      var init, last := ps[..|ps| - 1], ps[|ps| - 1];
      ProcessedEmptyIff(init);
      SnocSplit(ps);
      ProcessedSnoc(init, last);
      EmptyIffStep(Processed(ps), Processed(init), Emit(last), ps);
    }
  }

  lemma EmptyIffStep(bs: seq<string>, front: seq<string>, back: seq<string>, ps: seq<string>)
    requires ps != [] && bs == front + back
    requires front == [] <==> forall i :: 0 <= i < |ps| - 1 ==> AllSpace(ps[i])
    requires back == [] <==> AllSpace(ps[|ps| - 1])
    ensures bs == [] <==> forall i :: 0 <= i < |ps| ==> AllSpace(ps[i])
  {
  }

  /** The paragraph stage of `markdown_to_html` on the already substituted text:
      whitespace-only text renders as the empty string. */
  function RenderParagraphs(html: string): (r: string)
    ensures AllSpace(html) ==> r == ""
  {
    WhitespaceLeavesNoBlock(html);
    Join(BlockSep, Processed(SplitBlank(Strip(html))))
  }

  /** Whitespace-only text strips to a single empty piece, which yields no block. */
  lemma WhitespaceLeavesNoBlock(html: string)
    ensures AllSpace(html) ==> Processed(SplitBlank(Strip(html))) == []
  {
    if AllSpace(html) {
      EmptyPieceOnly(html);
    }
  }

  lemma EmptyPieceOnly(html: string)
    requires AllSpace(html)
    ensures Processed(SplitBlank(Strip(html))) == []
  {
    var noBlank := Strip(html);
    assert !HasBlankLine(noBlank) by {
      assert forall i, j :: 0 <= i <= j <= |noBlank| ==> noBlank[i..j] == [];
    }
    SplitWithoutBlankLine(noBlank);
    ProcessedSingle(noBlank);
  }

  /** Text with no blank line that does not open with markup becomes a single `<p>`
      element, its line breaks turned into spaces. */
  lemma SingleParagraph(q: string)
    requires q != [] && !IsSpace(q[0]) && !IsSpace(q[|q| - 1])
    requires !HasBlankLine(q) && !IsMarkupStart(q)
    ensures RenderParagraphs(q) == "<p>" + ReplaceChar(q, '\n', ' ') + "</p>"
  {
    SplitWithoutBlankLine(q);
    ProcessedSingle(q);
  }
}
