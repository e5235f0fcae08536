/**
 * `markdown_to_html`: front-matter removal, the heading and inline substitutions, and
 * the paragraph loop, composed in the order the converter applies them.
 */
module Markdown {
  import opened Text
  import FrontMatter
  import Headings
  import Inline
  import opened Paragraphs

  /** The text after every substitution and before paragraph splitting. Text holding
      none of the characters the substitutions look for, and not opening with a fence,
      reaches the paragraph stage unchanged. */
  function Substituted(md: string): (r: string)
    ensures NoMarkup(md) ==> r == md
  {
    NoMarkupPassesThrough(md);
    Inline.ConvertInline(Headings.ConvertHeadings(FrontMatter.StripFrontMatter(md)))
  }

  lemma NoMarkupPassesThrough(md: string)
    ensures NoMarkup(md) ==>
      Inline.ConvertInline(Headings.ConvertHeadings(FrontMatter.StripFrontMatter(md))) == md
  {
    if NoMarkup(md) {
      Headings.ConvertHeadingsIdentity(md);
    }
  }

  /** No character any substitution looks for, and no leading fence. */
  predicate NoMarkup(md: string) {
    '#' !in md && '*' !in md && '_' !in md && '[' !in md && '`' !in md
    && !StartsWith(md, FrontMatter.Fence)
  }

  /** The HTML fragment `markdown_to_html` returns for `md`: whitespace-only input gives
      the empty fragment. */
  function Fragment(md: string): (r: string)
    ensures AllSpace(md) ==> r == ""
  {
    WhitespaceHasNoMarkup(md);
    RenderParagraphs(Substituted(md))
  }

  lemma WhitespaceHasNoMarkup(md: string)
    ensures AllSpace(md) ==> NoMarkup(md)
  {
    if AllSpace(md) {
      WhitespaceNoFence(md);
    }
  }

  lemma WhitespaceNoFence(md: string)
    requires AllSpace(md)
    ensures NoMarkup(md)
  {
    assert md == [] || md[0] != '-';
    assert !StartsWith(md, FrontMatter.Fence) by {
      if |md| >= 4 { assert md[..4][0] == md[0]; }
    }
    assert forall c :: c in md ==> IsSpace(c);
  }

  /** The converter step by step: the text is rebound through each substitution in
      turn, then the pieces are processed one at a time and the kept blocks joined. */
  method MarkdownToHtml(md: string) returns (html: string)
    ensures html == Fragment(md)
  {
    var text := FrontMatter.StripFrontMatter(md);
    text := Headings.HeadingPass(4, text);
    text := Headings.HeadingPass(3, text);
    text := Headings.HeadingPass(2, text);
    text := Headings.HeadingPass(1, text);
    text := Inline.SubEmphasis("***", text);
    text := Inline.SubEmphasis("**", text);
    text := Inline.SubEmphasis("*", text);
    text := Inline.SubEmphasis("___", text);
    text := Inline.SubEmphasis("__", text);
    text := Inline.SubEmphasis("_", text);
    text := Inline.SubLinks(text);
    text := Inline.SubCode(text);
    assert text == Substituted(md);

    var paragraphs := SplitBlank(Strip(text));
    var processed := ProcessPieces(paragraphs);
    html := Join(BlockSep, processed);
  }

  /** The loop over the pieces: the blocks each piece yields are appended in order. */
  method ProcessPieces(paragraphs: seq<string>) returns (processed: seq<string>)
    ensures processed == Processed(paragraphs)
  {
    processed := [];
    var i := 0;
    while i < |paragraphs|
      invariant 0 <= i <= |paragraphs|
      invariant processed == Processed(paragraphs[..i])
    {
      var blocks := ProcessPiece(paragraphs[i]);
      ProcessedPrefix(paragraphs, i);
      processed := processed + blocks;
      i := i + 1;
    }
    assert paragraphs[..i] == paragraphs;
  }

  /** The body of the loop for one piece: a blank piece yields nothing, a piece opening
      with markup is kept stripped, any other is wrapped in `<p>` with its line breaks
      made spaces. */
  method ProcessPiece(piece: string) returns (blocks: seq<string>)
    ensures blocks == Emit(piece)
  {
    var p := Strip(piece);
    blocks := [];
    if p != [] {
      if IsMarkupStart(p) {
        blocks := [p];
      } else {
        blocks := ["<p>" + ReplaceChar(p, '\n', ' ') + "</p>"];
      }
    }
  }

  /** Text without markup characters, blank lines or surrounding whitespace, and not
      opening with a fence, becomes one `<p>` element whose line breaks are spaces. */
  lemma PlainTextIsOneParagraph(md: string)
    requires md != [] && !IsSpace(md[0]) && !IsSpace(md[|md| - 1])
    requires NoMarkup(md) && '<' !in md
    requires !HasBlankLine(md)
    ensures Fragment(md) == "<p>" + ReplaceChar(md, '\n', ' ') + "</p>"
  {
    NoMarkupStart(md);
    SingleParagraph(md);
  }

  lemma NoMarkupStart(s: string)
    requires s != [] && s[0] != '<'
    ensures !IsMarkupStart(s)
  {
    if |s| >= 2 { assert s[..2][0] == s[0]; }
    if |s| >= 3 { assert s[..3][0] == s[0]; }
  }

  /** Two plain lines separated by one line break join into a single paragraph, the
      break turned into a space. */
  lemma TwoLinesJoin(a: string, b: string)
    requires a != [] && b != []
    requires forall i :: 0 <= i < |a| ==> IsLetter(a[i])
    requires forall i :: 0 <= i < |b| ==> IsLetter(b[i])
    ensures Fragment(a + "\n" + b) == "<p>" + (a + " " + b) + "</p>"
  {
    var md := a + "\n" + b;
    LettersAroundNewline(a, b);
    assert !StartsWith(md, FrontMatter.Fence) by {
      if |md| >= 4 { assert md[..4][0] == md[0]; }
    }
    PlainTextIsOneParagraph(md);
  }

  lemma LettersAroundNewline(a: string, b: string)
    requires a != [] && b != []
    requires forall i :: 0 <= i < |a| ==> IsLetter(a[i])
    requires forall i :: 0 <= i < |b| ==> IsLetter(b[i])
    ensures var md := a + "\n" + b;
      md[0] == a[0] && md[|md| - 1] == b[|b| - 1]
      && (forall c :: c in md ==> IsLetter(c) || c == '\n')
      && !HasBlankLine(md)
      && ReplaceChar(md, '\n', ' ') == a + " " + b
  {
    var md := a + "\n" + b;
    assert forall i :: 0 <= i < |md| && i != |a| ==> IsLetter(md[i]);
    assert !HasBlankLine(md) by {
      forall i, j | 0 <= i <= j <= |md|
        ensures !IsBlankSep(md[i..j])
      {
        if j - i >= 2 && md[i] == '\n' {
          assert md[i..j][1] == md[i + 1];
        }
      }
    }
    var r := ReplaceChar(md, '\n', ' ');
    forall k | 0 <= k < |r|
      ensures r[k] == (a + " " + b)[k]
    {
      if k < |a| {
        assert md[k] == a[k];
      } else if k > |a| {
        assert md[k] == b[k - |a| - 1];
      }
    }
  }
}
