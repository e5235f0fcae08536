/**
 * Inline substitutions of `markdown_to_html`: the six emphasis patterns, links and
 * inline code, each a global `re.sub`.
 *
 * Every pattern is modelled by a scanner that walks the text left to right, as `re.sub`
 * does: at each offset it tries the pattern; a match becomes one token and scanning
 * resumes after it, otherwise the character becomes a literal token and scanning
 * resumes one further on. The substitution is the rendering of those tokens, and
 * writing each token back as the text it was matched from gives the input again.
 */
module Inline {
  import opened Text

  datatype Token =
    | Lit(c: char)                     // a character at which no match starts
    | Emph(delim: string, inner: string)
    | Link(text: string, url: string)
    | Code(inner: string)

  /** The text a token was matched from. */
  function Source(t: Token): string {
    match t
    case Lit(c) => [c]
    case Emph(d, x) => d + x + d
    case Link(x, u) => "[" + x + "](" + u + ")"
    case Code(x) => "`" + x + "`"
  }

  function EmphOpen(n: nat): string {
    if n == 3 then "<strong><em>" else if n == 2 then "<strong>" else "<em>"
  }

  function EmphClose(n: nat): string {
    if n == 3 then "</em></strong>" else if n == 2 then "</strong>" else "</em>"
  }

  /** The replacement text of a token. */
  function Html(t: Token): string {
    match t
    case Lit(c) => [c]
    case Emph(d, x) => EmphOpen(|d|) + x + EmphClose(|d|)
    case Link(x, u) => "<a href=\"" + u + "\">" + x + "</a>"
    case Code(x) => "<code>" + x + "</code>"
  }

  function Unscan(ts: seq<Token>): string
    decreases |ts|
  {
    if ts == [] then [] else Source(ts[0]) + Unscan(ts[1..])
  }

  function Render(ts: seq<Token>): string
    decreases |ts|
  {
    if ts == [] then [] else Html(ts[0]) + Render(ts[1..])
  }

  lemma UnscanCons(t: Token, rest: seq<Token>)
    ensures Unscan([t] + rest) == Source(t) + Unscan(rest)
  {
    assert ([t] + rest)[1..] == rest;
  }

  lemma RenderCons(t: Token, rest: seq<Token>)
    ensures Render([t] + rest) == Html(t) + Render(rest)
  {
    assert ([t] + rest)[1..] == rest;
  }

  /** Tokens that are all literal render as the text they came from. */
  lemma {:induction false} RenderLiterals(ts: seq<Token>)
    requires forall t :: t in ts ==> t.Lit?
    ensures Render(ts) == Unscan(ts)
    decreases |ts|
  {
    if ts != [] {
      assert ts[0] in ts;
      assert forall t :: t in ts[1..] ==> t in ts;
      RenderLiterals(ts[1..]);
    }
  }

  // ---------------------------------------------------------------------------------
  // Emphasis: `\*\*\*(.+?)\*\*\*`, `\*\*(.+?)\*\*`, `\*(.+?)\*` and the `_` forms.
  // ---------------------------------------------------------------------------------

  /** The six emphasis markers. */
  predicate IsDelim(d: string) {
    d == "***" || d == "**" || d == "*" || d == "___" || d == "__" || d == "_"
  }

  predicate DelimAt(s: string, j: nat, d: string) {
    j + |d| <= |s| && s[j..j + |d|] == d
  }

  /** `d(.+?)d` matches at the start of `s` with its closing marker at `j`: the enclosed
      text is not empty and holds no newline, since `.` does not match one. */
  predicate IsEmphasisMatch(d: string, s: string, j: nat) {
    StartsWith(s, d) && |d| + 1 <= j && DelimAt(s, j, d)
    && forall i :: |d| <= i < j ==> s[i] != '\n'
  }

  /** Extends the lazy `.+?` one character at a time from `j` until the closing marker
      follows, giving up at a newline or at the end of the text. */
  function FindClose(d: string, s: string, j: nat): (r: Option<nat>)
    requires IsDelim(d) && StartsWith(s, d) && |d| + 1 <= j <= |s|
    requires forall i :: |d| <= i < j ==> s[i] != '\n'
    ensures r.Some? ==> j <= r.value && IsEmphasisMatch(d, s, r.value)
    ensures forall k :: j <= k && (r.None? || k < r.value) ==> !IsEmphasisMatch(d, s, k)
    decreases |s| - j
  {
    if j + |d| > |s| then None
    else if DelimAt(s, j, d) then Some(j)
    else if s[j] == '\n' then
      assert forall k: nat :: j < k ==> !IsEmphasisMatch(d, s, k) by {
        forall k: nat | j < k ensures !IsEmphasisMatch(d, s, k) {
          assert |d| <= j < k && s[j] == '\n';
        }
      }
      None
    else FindClose(d, s, j + 1)
  }

  /** The closing marker of the match of `d(.+?)d` at the start of `s`, if there is one:
      the match whose enclosed text is the shortest. */
  function EmphasisClose(d: string, s: string): (r: Option<nat>)
    requires IsDelim(d)
    ensures r.Some? ==> IsEmphasisMatch(d, s, r.value)
    ensures forall k: nat :: (r.None? || k < r.value) ==> !IsEmphasisMatch(d, s, k)
  {
    if StartsWith(s, d) && |s| > |d| && s[|d|] != '\n' then FindClose(d, s, |d| + 1)
    else None
  }

  /** What a match encloses: at least one character, no newline, and no closing marker
      before the end (the lazy match stops at the first one). */
  predicate ShortestSpan(d: string, x: string) {
    |x| >= 1 && '\n' !in x && forall m :: 1 <= m < |x| ==> !DelimAt(x + d, m, d)
  }

  /** The match found at the start of `s` splits it into marker, shortest span, marker
      and the rest. */
  lemma EmphasisSpanShortest(d: string, s: string, j: nat)
    requires IsDelim(d) && IsEmphasisMatch(d, s, j)
    requires forall k: nat :: k < j ==> !IsEmphasisMatch(d, s, k)
    ensures ShortestSpan(d, s[|d|..j])
    ensures s == d + s[|d|..j] + d + s[j + |d|..]
  {
    var x := s[|d|..j];
    assert s[..|d|] == d;
    assert s[j..j + |d|] == d;
    assert s == s[..|d|] + s[|d|..j] + s[j..j + |d|] + s[j + |d|..];
    assert x + d == s[|d|..j + |d|];
    forall m | 1 <= m < |x|
      ensures !DelimAt(x + d, m, d)
    {
      var k := |d| + m;
      assert !IsEmphasisMatch(d, s, k);
      assert (x + d)[m..m + |d|] == s[k..k + |d|];
    }
    NotInSlice(s, |d|, j, '\n');
  }

  /** The three kinds of pattern the scanners try. */
  datatype Pattern = EmphasisPattern(d: string) | LinkPattern | CodePattern

  /** `t` is the token `re.sub` takes for pattern `p` at the start of the text `u`: a
      literal where no match starts there, and otherwise the token of the match, which closes right after its span (for emphasis, the leftmost closing
      marker; for a link, the first `]` and then the first `)`; for code, the first
      backtick). */
  predicate Taken(p: Pattern, t: Token, u: string) {
    match p
    case EmphasisPattern(d) =>
      IsDelim(d)
      && (t.Lit? ==> EmphasisClose(d, u).None?)
      && (t.Emph? ==> EmphasisClose(d, u) == Some(|d| + |t.inner|))
    case LinkPattern =>
      (t.Lit? ==> LinkAt(u).None?)
      && (t.Link? ==> LinkAt(u) == Some((|t.text| + 1, |t.text| + |t.url| + 3)))
    case CodePattern =>
      (t.Lit? ==> CodeAt(u).None?)
      && (t.Code? ==> CodeAt(u) == Some(|t.inner| + 1))
  }

  /** A token taken at the start of the whole text, followed by tokens each taken where
      it stands, gives a sequence whose every token is taken where it stands. */
  lemma TakenCons(p: Pattern, t: Token, rest: seq<Token>)
    requires Taken(p, t, Unscan([t] + rest))
    requires forall i {:trigger Taken(p, rest[i], Unscan(rest[i..]))} ::
      0 <= i < |rest| ==> Taken(p, rest[i], Unscan(rest[i..]))
    ensures var ts := [t] + rest;
      forall i {:trigger Taken(p, ts[i], Unscan(ts[i..]))} ::
        0 <= i < |ts| ==> Taken(p, ts[i], Unscan(ts[i..]))
  {
    var ts := [t] + rest;
    forall i | 0 <= i < |ts|
      ensures Taken(p, ts[i], Unscan(ts[i..]))
    {
      if i == 0 {
        assert ts[0..] == ts;
      } else {
        assert ts[i..] == rest[i - 1..] && ts[i] == rest[i - 1];
        assert Taken(p, rest[i - 1], Unscan(rest[i - 1..]));
      }
    }
  }

  /** Every token of `ts` is taken where it stands. */
  predicate DecidedBy(p: Pattern, ts: seq<Token>) {
    forall i {:trigger Taken(p, ts[i], Unscan(ts[i..]))} ::
      0 <= i < |ts| ==> Taken(p, ts[i], Unscan(ts[i..]))
  }

  /** The tokens pattern `p` can produce: literals and its own kind of match. */
  predicate OfPattern(p: Pattern, t: Token) {
    match p
    case EmphasisPattern(d) => t.Lit? || (t.Emph? && t.delim == d)
    case LinkPattern => t.Lit? || t.Link?
    case CodePattern => t.Lit? || t.Code?
  }

  /** The scanners' contracts leave no choice: two token sequences of one pattern that
      read back to the same text and are each taken where they stand are the same. */
  lemma {:induction false} DecidedUnique(p: Pattern, ts1: seq<Token>, ts2: seq<Token>)
    requires Unscan(ts1) == Unscan(ts2)
    requires DecidedBy(p, ts1) && DecidedBy(p, ts2)
    requires forall t :: t in ts1 ==> OfPattern(p, t)
    requires forall t :: t in ts2 ==> OfPattern(p, t)
    ensures ts1 == ts2
    decreases |ts1|
  {
    if ts1 == [] || ts2 == [] {
      UnscanEmpty(p, ts1);
      UnscanEmpty(p, ts2);
    } else {
      var s := Unscan(ts1);
      var t1, t2 := ts1[0], ts2[0];
      assert ts1[0..] == ts1 && ts2[0..] == ts2;
      assert Taken(p, t1, Unscan(ts1[0..])) && Taken(p, t2, Unscan(ts2[0..]));
      assert s == Source(t1) + Unscan(ts1[1..]) && s == Source(t2) + Unscan(ts2[1..]);
      SameFirst(p, t1, t2, Unscan(ts1[1..]), Unscan(ts2[1..]), s);
      DecidedTail(p, ts1);
      DecidedTail(p, ts2);
      DecidedUnique(p, ts1[1..], ts2[1..]);
      assert ts1 == [t1] + ts1[1..] && ts2 == [t2] + ts2[1..];
    }
  }

  lemma UnscanEmpty(p: Pattern, ts: seq<Token>)
    requires DecidedBy(p, ts) && forall t :: t in ts ==> OfPattern(p, t)
    ensures Unscan(ts) == [] <==> ts == []
  {
    if ts != [] {
      assert ts[0..] == ts;
      assert Taken(p, ts[0], Unscan(ts[0..])) && OfPattern(p, ts[0]);
      assert |Source(ts[0])| >= 1;
    }
  }

  lemma DecidedTail(p: Pattern, ts: seq<Token>)
    requires ts != [] && DecidedBy(p, ts)
    ensures DecidedBy(p, ts[1..])
  {
    var rest := ts[1..];
    forall i | 0 <= i < |rest|
      ensures Taken(p, rest[i], Unscan(rest[i..]))
    {
      assert rest[i..] == ts[i + 1..] && rest[i] == ts[i + 1];
      assert Taken(p, ts[i + 1], Unscan(ts[i + 1..]));
    }
  }

  /** Two tokens taken at the start of one text are the same token, and what follows
      them is the same text. */
  lemma SameFirst(p: Pattern, t1: Token, t2: Token, u1: string, u2: string, s: string)
    requires OfPattern(p, t1) && OfPattern(p, t2)
    requires s == Source(t1) + u1 && s == Source(t2) + u2
    requires Taken(p, t1, s) && Taken(p, t2, s)
    ensures t1 == t2 && u1 == u2
  {
    if t1.Lit? && t2.Lit? {
      assert s[0] == t1.c && s[0] == t2.c;
    } else if !t1.Lit? && !t2.Lit? {
      match p
      case EmphasisPattern(d) =>
        assert |d| + |t1.inner| == |d| + |t2.inner|;
        SameEmphasis(d, t1.inner, t2.inner, u1, u2, s);
      case LinkPattern =>
        assert (|t1.text| + 1, |t1.text| + |t1.url| + 3) == (|t2.text| + 1, |t2.text| + |t2.url| + 3);
        SameLink(t1.text, t1.url, t2.text, t2.url, u1, u2, s);
      case CodePattern =>
        assert |t1.inner| + 1 == |t2.inner| + 1;
        SameCode(t1.inner, t2.inner, u1, u2, s);
    }
    assert |Source(t1)| == |Source(t2)|;
    assert u1 == s[|Source(t1)|..] && u2 == s[|Source(t2)|..];
  }

  lemma SameEmphasis(d: string, x: string, y: string, u1: string, u2: string, s: string)
    requires |x| == |y|
    requires s == d + x + d + u1 && s == d + y + d + u2
    ensures x == y
  {
    Middle(d, x, d + u1, s);
    Middle(d, y, d + u2, s);
  }

  lemma SameLink(x: string, v: string, y: string, w: string, u1: string, u2: string, s: string)
    requires |x| == |y| && |v| == |w|
    requires s == "[" + x + "](" + v + ")" + u1 && s == "[" + y + "](" + w + ")" + u2
    ensures x == y && v == w
  {
    Middle("[", x, "](" + v + ")" + u1, s);
    Middle("[", y, "](" + w + ")" + u2, s);
    Middle("[" + x + "](", v, ")" + u1, s);
    Middle("[" + y + "](", w, ")" + u2, s);
  }

  lemma SameCode(x: string, y: string, u1: string, u2: string, s: string)
    requires |x| == |y|
    requires s == "`" + x + "`" + u1 && s == "`" + y + "`" + u2
    ensures x == y
  {
    Middle("`", x, "`" + u1, s);
    Middle("`", y, "`" + u2, s);
  }

  /** The middle part of a three-part text is the slice between the other two. */
  lemma Middle(a: string, x: string, b: string, s: string)
    requires s == a + x + b
    ensures x == s[|a|..|a| + |x|]
  {
  }

  /** What the emphasis scanner promises of the tokens `ts` it returns for marker `d` and
      text `s`: reading them back gives `s`; at the text each token starts, a literal
      token stands where no match starts and an emphasis token where the leftmost match
      closes right after its span; every match encloses the shortest possible span on
      one line; and without the marker character in `s` there is no match at all. */
  predicate ScannedEmphasis(d: string, s: string, ts: seq<Token>) {
    && IsDelim(d)
    && Unscan(ts) == s
    && (forall i {:trigger Taken(EmphasisPattern(d), ts[i], Unscan(ts[i..]))} ::
          0 <= i < |ts| ==> Taken(EmphasisPattern(d), ts[i], Unscan(ts[i..])))
    && (forall t :: t in ts ==> t.Lit? || (t.Emph? && t.delim == d && ShortestSpan(d, t.inner)))
    && (d[0] !in s ==> forall t :: t in ts ==> t.Lit?)
  }

  /** The tokens `re.sub` works through for marker `d`, as `ScannedEmphasis` states. */
  function ScanEmphasis(d: string, s: string): (ts: seq<Token>)
    requires IsDelim(d)
    ensures ScannedEmphasis(d, s, ts)
    decreases |s|
  {
    if s == [] then []
    else
      match EmphasisClose(d, s)
      case Some(j) =>
        var rest := ScanEmphasis(d, s[j + |d|..]);
        EmphasisMatchStep(d, s, j, rest);
        [Emph(d, s[|d|..j])] + rest
      case None =>
        var rest := ScanEmphasis(d, s[1..]);
        EmphasisLiteralStep(d, s, rest);
        [Lit(s[0])] + rest
  }

  /** A step of the emphasis scanner at a match: the emphasis token, followed by the
      tokens of the text after the match, are the tokens of `s`. */
  lemma EmphasisMatchStep(d: string, s: string, j: nat, rest: seq<Token>)
    requires IsDelim(d) && EmphasisClose(d, s) == Some(j)
    requires ScannedEmphasis(d, s[j + |d|..], rest)
    ensures ScannedEmphasis(d, s, [Emph(d, s[|d|..j])] + rest)
  {
    var t := Emph(d, s[|d|..j]);
    EmphasisSpanShortest(d, s, j);
    UnscanCons(t, rest);
    EmphasisTakenFirst(d, s, j);
    assert Unscan([t] + rest) == s;
    TakenCons(EmphasisPattern(d), t, rest);
    assert s[0] == d[0];
  }

  lemma EmphasisTakenFirst(d: string, s: string, j: nat)
    requires IsDelim(d) && EmphasisClose(d, s) == Some(j)
    ensures Taken(EmphasisPattern(d), Emph(d, s[|d|..j]), s)
  {
  }

  /** A step of the emphasis scanner where no match starts: the first character as a
      literal, followed by the tokens of the text after it, are the tokens of `s`. */
  lemma EmphasisLiteralStep(d: string, s: string, rest: seq<Token>)
    requires IsDelim(d) && s != [] && EmphasisClose(d, s).None?
    requires ScannedEmphasis(d, s[1..], rest)
    ensures ScannedEmphasis(d, s, [Lit(s[0])] + rest)
  {
    UnscanCons(Lit(s[0]), rest);
    assert s == [s[0]] + s[1..];
    TakenCons(EmphasisPattern(d), Lit(s[0]), rest);
    assert d[0] !in s ==> d[0] !in s[1..];
  }

  /** The scanner's contract fixes its result: any tokens that read back to `s`, each
      taken where it stands, are the tokens of the scanner. */
  lemma ScanEmphasisUnique(d: string, s: string, ts: seq<Token>)
    requires ScannedEmphasis(d, s, ts)
    ensures ts == ScanEmphasis(d, s)
  {
    DecidedUnique(EmphasisPattern(d), ts, ScanEmphasis(d, s));
  }

  /** `re.sub(d + '(.+?)' + d, open + r'\1' + close, s)`: a text without the marker
      character is left as it is. */
  function SubEmphasis(d: string, s: string): (r: string)
    requires IsDelim(d)
    ensures d[0] !in s ==> r == s
  {
    var ts := ScanEmphasis(d, s);
    if d[0] !in s then RenderLiterals(ts); Render(ts) else Render(ts)
  }

  /** The six emphasis substitutions in source order: for each marker character the
      triple form first, then the double, then the single. Text with no `*` and no `_`
      is left unchanged. */
  function ConvertEmphasis(s: string): (r: string)
    ensures '*' !in s && '_' !in s ==> r == s
  {
    var s1 := SubEmphasis("***", s);
    var s2 := SubEmphasis("**", s1);
    var s3 := SubEmphasis("*", s2);
    var s4 := SubEmphasis("___", s3);
    var s5 := SubEmphasis("__", s4);
    SubEmphasis("_", s5)
  }

  /** The triple-marker pass turns `***x***` into bold italic. */
  lemma TripleMatch(x: string)
    requires |x| >= 1 && '*' !in x && '\n' !in x
    ensures SubEmphasis("***", "***" + x + "***") == "<strong><em>" + x + "</em></strong>"
  {
    var d := "***";
    var s := d + x + d;
    var j := 3 + |x|;
    assert s[..3] == d && s[3..j] == x && s[j..j + 3] == d && s[j + 3..] == [];
    assert IsEmphasisMatch(d, s, j) by {
      assert forall i :: 3 <= i < j ==> s[i] == x[i - 3];
    }
    forall k: nat | k < j
      ensures !IsEmphasisMatch(d, s, k)
    {
      if 4 <= k {
        assert s[k] == x[k - 3] && s[k] != '*';
        assert s[k..k + 3][0] == s[k];
      }
    }
    assert EmphasisClose(d, s) == Some(j);
    assert ScanEmphasis(d, s) == [Emph(d, x)] + ScanEmphasis(d, []);
    RenderCons(Emph(d, x), []);
  }

  /** Triple markers are taken before the double and single forms can fire:
      `***x***` becomes bold italic, not bold around stray single markers. */
  lemma TripleBeforeDouble(x: string)
    requires |x| >= 1 && '*' !in x && '_' !in x && '\n' !in x
    ensures ConvertEmphasis("***" + x + "***") == "<strong><em>" + x + "</em></strong>"
  {
    TripleMatch(x);
    BoldItalicHasNoMarkers(x);
    ConvertEmphasisRest("<strong><em>" + x + "</em></strong>");
  }

  lemma BoldItalicHasNoMarkers(x: string)
    requires '*' !in x && '_' !in x
    ensures var out := "<strong><em>" + x + "</em></strong>"; '*' !in out && '_' !in out
  {
  }

  /** The five passes after the first leave alone a text with no marker character. */
  lemma ConvertEmphasisRest(out: string)
    requires '*' !in out && '_' !in out
    ensures SubEmphasis("_", SubEmphasis("__", SubEmphasis("___",
      SubEmphasis("*", SubEmphasis("**", out))))) == out
  {
  }

  /** A lone closing marker at the end of a text without markers is no match. */
  lemma {:induction false} TrailingMarkerOnly(t: string)
    requires '*' !in t
    ensures forall tok :: tok in ScanEmphasis("*", t + "*") ==> tok.Lit?
    decreases |t|
  {
    var s := t + "*";
    if t == [] {
      assert ScanEmphasis("*", s) == [Lit('*')] + ScanEmphasis("*", []);
    } else {
      assert s[0] == t[0] && s[0] != '*';
      assert s[1..] == t[1..] + "*";
      TrailingMarkerOnly(t[1..]);
      assert ScanEmphasis("*", s) == [Lit(s[0])] + ScanEmphasis("*", s[1..]);
    }
  }

  /** Emphasis never spans a line break: two markers with a newline between them are
      left as they are. */
  lemma EmphasisStopsAtNewline(a: string, b: string)
    requires '*' !in a && '*' !in b
    ensures var s := "*" + a + "\n" + b + "*"; SubEmphasis("*", s) == s
  {
    var s := "*" + a + "\n" + b + "*";
    var last := |s| - 1;
    assert s[|a| + 1] == '\n';
    forall k: nat
      ensures !IsEmphasisMatch("*", s, k)
    {
      if 2 <= k < last {
        assert s[k..k + 1][0] == s[k];
        if k <= |a| {
          assert s[k] == a[k - 1];
        } else if k > |a| + 1 {
          assert s[k] == b[k - |a| - 2];
        }
      }
    }
    assert EmphasisClose("*", s) == None;
    var t := a + "\n" + b;
    assert s[1..] == t + "*";
    assert '*' !in t;
    TrailingMarkerOnly(t);
    assert ScanEmphasis("*", s) == [Lit('*')] + ScanEmphasis("*", s[1..]);
    RenderLiterals(ScanEmphasis("*", s));
  }

  // ---------------------------------------------------------------------------------
  // Links: `\[([^\]]+)\]\(([^)]+)\)`.
  // ---------------------------------------------------------------------------------

  /** The link pattern matches at the start of `s` with `]` at `k` and `)` at `m`.
      The character classes exclude only `]` and `)`, so text and URL may hold newlines. */
  predicate IsLinkMatch(s: string, k: nat, m: nat) {
    m < |s| && s[0] == '[' && 2 <= k && k + 3 <= m
    && s[k] == ']' && s[k + 1] == '(' && s[m] == ')'
    && (forall i :: 1 <= i < k ==> s[i] != ']')
    && (forall i :: k + 2 <= i < m ==> s[i] != ')')
  }

  /** The link match at the start of `s`, if any: the text runs to the first `]`, the URL
      to the first `)` after the `(` that must follow it. */
  function LinkAt(s: string): (r: Option<(nat, nat)>)
    ensures r.Some? ==> IsLinkMatch(s, r.value.0, r.value.1)
    ensures r.None? ==> forall k, m :: !IsLinkMatch(s, k, m)
  {
    if s == [] || s[0] != '[' then None
    else
      var k := IndexFrom(s, ']', 1);
      if 2 <= k && k + 1 < |s| && s[k + 1] == '(' then
        var m := IndexFrom(s, ')', k + 2);
        if m < |s| && k + 3 <= m then Some((k, m)) else None
      else None
  }

  /** At any offset the link pattern can match in at most one way. */
  lemma LinkMatchUnique(s: string, k: nat, m: nat, k': nat, m': nat)
    requires IsLinkMatch(s, k, m) && IsLinkMatch(s, k', m')
    ensures k == k' && m == m'
  {
  }

  predicate WellFormedLink(x: string, u: string) {
    |x| >= 1 && ']' !in x && |u| >= 1 && ')' !in u
  }

  /** A link match splits `s` into the link's source text and the rest. */
  lemma LinkSplit(s: string, k: nat, m: nat)
    requires IsLinkMatch(s, k, m)
    ensures s == Source(Link(s[1..k], s[k + 2..m])) + s[m + 1..]
    ensures WellFormedLink(s[1..k], s[k + 2..m])
  {
    assert s == s[..1] + s[1..k] + s[k..k + 2] + s[k + 2..m] + s[m..m + 1] + s[m + 1..];
    assert s[..1] == "[" && s[k..k + 2] == "](" && s[m..m + 1] == ")";
    NotInSlice(s, 1, k, ']');
    NotInSlice(s, k + 2, m, ')');
  }

  /** What the link scanner promises of the tokens `ts` it returns for `s`: reading them
      back gives `s`; at the text each token starts, a literal token stands where no
      link match starts and a link token where the match closes its text and its URL
      right after them; link text never holds `]` and a URL never holds `)`; and
      without `[` there is no link. */
  predicate ScannedLinks(s: string, ts: seq<Token>) {
    && Unscan(ts) == s
    && (forall i {:trigger Taken(LinkPattern, ts[i], Unscan(ts[i..]))} ::
          0 <= i < |ts| ==> Taken(LinkPattern, ts[i], Unscan(ts[i..])))
    && (forall t :: t in ts ==> t.Lit? || (t.Link? && WellFormedLink(t.text, t.url)))
    && ('[' !in s ==> forall t :: t in ts ==> t.Lit?)
  }

  /** The tokens the link substitution works through, as `ScannedLinks` states. */
  function ScanLinks(s: string): (ts: seq<Token>)
    ensures ScannedLinks(s, ts)
    decreases |s|
  {
    if s == [] then []
    else
      match LinkAt(s)
      case Some((k, m)) =>
        var rest := ScanLinks(s[m + 1..]);
        LinkMatchStep(s, k, m, rest);
        [Link(s[1..k], s[k + 2..m])] + rest
      case None =>
        var rest := ScanLinks(s[1..]);
        LinkLiteralStep(s, rest);
        [Lit(s[0])] + rest
  }

  /** A step of the link scanner at a match: the link token, followed by the tokens of
      the text after the match, are the tokens of `s`. */
  lemma LinkMatchStep(s: string, k: nat, m: nat, rest: seq<Token>)
    requires LinkAt(s) == Some((k, m))
    requires ScannedLinks(s[m + 1..], rest)
    ensures ScannedLinks(s, [Link(s[1..k], s[k + 2..m])] + rest)
  {
    var t := Link(s[1..k], s[k + 2..m]);
    UnscanCons(t, rest);
    LinkSplit(s, k, m);
    LinkTakenFirst(s, k, m);
    assert Unscan([t] + rest) == s;
    TakenCons(LinkPattern, t, rest);
  }

  lemma LinkTakenFirst(s: string, k: nat, m: nat)
    requires LinkAt(s) == Some((k, m))
    ensures Taken(LinkPattern, Link(s[1..k], s[k + 2..m]), s)
  {
  }

  /** A step of the link scanner where no link starts: the first character as a literal,
      followed by the tokens of the text after it, are the tokens of `s`. */
  lemma LinkLiteralStep(s: string, rest: seq<Token>)
    requires s != [] && LinkAt(s).None?
    requires ScannedLinks(s[1..], rest)
    ensures ScannedLinks(s, [Lit(s[0])] + rest)
  {
    UnscanCons(Lit(s[0]), rest);
    assert s == [s[0]] + s[1..];
    TakenCons(LinkPattern, Lit(s[0]), rest);
    assert '[' !in s ==> '[' !in s[1..];
  }

  /** The link scanner's contract fixes its result. */
  lemma ScanLinksUnique(s: string, ts: seq<Token>)
    requires ScannedLinks(s, ts)
    ensures ts == ScanLinks(s)
  {
    DecidedUnique(LinkPattern, ts, ScanLinks(s));
  }

  /** `re.sub(r'\[([^\]]+)\]\(([^)]+)\)', r'<a href="\2">\1</a>', s)`: text without `[`
      is left as it is. */
  function SubLinks(s: string): (r: string)
    ensures '[' !in s ==> r == s
  {
    var ts := ScanLinks(s);
    if '[' !in s then RenderLiterals(ts); Render(ts) else Render(ts)
  }

  /** A link becomes an anchor with text and URL copied verbatim; the text may run over
      a line break, unlike emphasis. */
  lemma LinkBecomesAnchor(x: string, u: string)
    requires WellFormedLink(x, u)
    ensures SubLinks("[" + x + "](" + u + ")") == "<a href=\"" + u + "\">" + x + "</a>"
  {
    var s := "[" + x + "](" + u + ")";
    var k := |x| + 1;
    var m := k + 2 + |u|;
    assert s[1..k] == x && s[k + 2..m] == u && s[m + 1..] == [];
    assert IsLinkMatch(s, k, m) by {
      assert forall i :: 1 <= i < k ==> s[i] == x[i - 1];
      assert forall i :: k + 2 <= i < m ==> s[i] == u[i - k - 2];
    }
    assert LinkAt(s) == Some((k, m));
    assert ScanLinks(s) == [Link(x, u)] + ScanLinks([]);
    RenderCons(Link(x, u), []);
  }

  // ---------------------------------------------------------------------------------
  // Inline code: `` `([^`]+)` ``.
  // ---------------------------------------------------------------------------------

  /** The code pattern matches at the start of `s` with its closing backtick at `k`. */
  predicate IsCodeMatch(s: string, k: nat) {
    k < |s| && s[0] == '`' && 2 <= k && s[k] == '`'
    && forall i :: 1 <= i < k ==> s[i] != '`'
  }

  function CodeAt(s: string): (r: Option<nat>)
    ensures r.Some? ==> IsCodeMatch(s, r.value)
    ensures r.None? ==> forall k :: !IsCodeMatch(s, k)
  {
    if s == [] || s[0] != '`' then None
    else
      var k := IndexFrom(s, '`', 1);
      if 2 <= k < |s| then Some(k) else None
  }

  /** A code match splits `s` into the span's source text and the rest. */
  lemma CodeSplit(s: string, k: nat)
    requires IsCodeMatch(s, k)
    ensures s == Source(Code(s[1..k])) + s[k + 1..]
    ensures '`' !in s[1..k]
  {
    assert s == s[..1] + s[1..k] + s[k..k + 1] + s[k + 1..];
    assert s[..1] == "`" && s[k..k + 1] == "`";
    NotInSlice(s, 1, k, '`');
  }

  /** What the code scanner promises of the tokens `ts` it returns for `s`: reading them
      back gives `s`; at the text each token starts, a literal token stands where no
      code match starts and a code token where the match closes right after its span; a
      code span is never empty and never holds a backtick; and without a backtick there
      is none. */
  predicate ScannedCode(s: string, ts: seq<Token>) {
    && Unscan(ts) == s
    && (forall i {:trigger Taken(CodePattern, ts[i], Unscan(ts[i..]))} ::
          0 <= i < |ts| ==> Taken(CodePattern, ts[i], Unscan(ts[i..])))
    && (forall t :: t in ts ==> t.Lit? || (t.Code? && |t.inner| >= 1 && '`' !in t.inner))
    && ('`' !in s ==> forall t :: t in ts ==> t.Lit?)
  }

  /** The tokens the code substitution works through, as `ScannedCode` states. */
  function ScanCode(s: string): (ts: seq<Token>)
    ensures ScannedCode(s, ts)
    decreases |s|
  {
    if s == [] then []
    else
      match CodeAt(s)
      case Some(k) =>
        var rest := ScanCode(s[k + 1..]);
        CodeMatchStep(s, k, rest);
        [Code(s[1..k])] + rest
      case None =>
        var rest := ScanCode(s[1..]);
        CodeLiteralStep(s, rest);
        [Lit(s[0])] + rest
  }

  /** A step of the code scanner at a match: the code token, followed by the tokens of
      the text after the match, are the tokens of `s`. */
  lemma CodeMatchStep(s: string, k: nat, rest: seq<Token>)
    requires CodeAt(s) == Some(k)
    requires ScannedCode(s[k + 1..], rest)
    ensures ScannedCode(s, [Code(s[1..k])] + rest)
  {
    var t := Code(s[1..k]);
    UnscanCons(t, rest);
    CodeSplit(s, k);
    CodeTakenFirst(s, k);
    assert Unscan([t] + rest) == s;
    TakenCons(CodePattern, t, rest);
  }

  lemma CodeTakenFirst(s: string, k: nat)
    requires CodeAt(s) == Some(k)
    ensures Taken(CodePattern, Code(s[1..k]), s)
  {
  }

  /** A step of the code scanner where no code span starts: the first character as a
      literal, followed by the tokens of the text after it, are the tokens of `s`. */
  lemma CodeLiteralStep(s: string, rest: seq<Token>)
    requires s != [] && CodeAt(s).None?
    requires ScannedCode(s[1..], rest)
    ensures ScannedCode(s, [Lit(s[0])] + rest)
  {
    UnscanCons(Lit(s[0]), rest);
    assert s == [s[0]] + s[1..];
    TakenCons(CodePattern, Lit(s[0]), rest);
    assert '`' !in s ==> '`' !in s[1..];
  }

  /** The code scanner's contract fixes its result. */
  lemma ScanCodeUnique(s: string, ts: seq<Token>)
    requires ScannedCode(s, ts)
    ensures ts == ScanCode(s)
  {
    DecidedUnique(CodePattern, ts, ScanCode(s));
  }

  /** `re.sub(r'`([^`]+)`', r'<code>\1</code>', s)`: text without a backtick is left as
      it is. */
  function SubCode(s: string): (r: string)
    ensures '`' !in s ==> r == s
  {
    var ts := ScanCode(s);
    if '`' !in s then RenderLiterals(ts); Render(ts) else Render(ts)
  }

  /** A code span becomes a `<code>` element with its text copied verbatim. */
  lemma CodeBecomesElement(x: string)
    requires |x| >= 1 && '`' !in x
    ensures SubCode("`" + x + "`") == "<code>" + x + "</code>"
  {
    ScanCodeSpan(x);
    RenderCons(Code(x), []);
  }

  lemma ScanCodeSpan(x: string)
    requires |x| >= 1 && '`' !in x
    ensures ScanCode("`" + x + "`") == [Code(x)]
  {
    var s := "`" + x + "`";
    var k := |x| + 1;
    assert s[1..k] == x && s[k + 1..] == [];
    assert IsCodeMatch(s, k) by {
      assert forall i :: 1 <= i < k ==> s[i] == x[i - 1];
    }
    assert CodeAt(s) == Some(k);
    assert ScanCode(s) == [Code(x)] + ScanCode([]);
  }

  /** An empty pair of backticks is no match: the first backtick stays, and the second
      opens a span with the next one. */
  lemma EmptyCodeSkipped(x: string)
    requires |x| >= 1 && '`' !in x
    ensures SubCode("``" + x + "`") == "`<code>" + x + "</code>"
  {
    var t := "`" + x + "`";
    var s := "`" + t;
    assert s == "``" + x + "`";
    assert s[0] == '`' && s[1] == '`' && s[1..] == t;
    ScanSkipsEmptyPair(s);
    RenderCons(Lit('`'), ScanCode(t));
    CodeBecomesElement(x);
    assert SubCode(s) == "`" + SubCode(t);
    BacktickBefore(x);
  }

  lemma BacktickBefore(x: string)
    ensures "`" + ("<code>" + x + "</code>") == "`<code>" + x + "</code>"
  {
  }

  lemma ScanSkipsEmptyPair(s: string)
    requires |s| >= 2 && s[0] == '`' && s[1] == '`'
    ensures ScanCode(s) == [Lit('`')] + ScanCode(s[1..])
  {
    assert IndexFrom(s, '`', 1) == 1;
    assert CodeAt(s) == None;
  }

  /** All inline substitutions in source order: emphasis, then links, then code. Text
      holding none of the inline marker characters passes through unchanged. */
  function ConvertInline(s: string): (r: string)
    ensures '*' !in s && '_' !in s && '[' !in s && '`' !in s ==> r == s
  {
    SubCode(SubLinks(ConvertEmphasis(s)))
  }
}
