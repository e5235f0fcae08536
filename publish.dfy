/**
 * The part of `main` that is not input and output: choosing the title (an explicit
 * title, else the first `# ` heading line of the raw text, else the file name), the
 * page template of `create_essay_html`, and where the page is written.
 *
 * Reading and writing files, the argument checks, the printed messages and the call
 * to the list-refreshing script are not modelled; the directory of the essays and the
 * stylesheet text are parameters.
 */
module Publish {
  import opened Text
  import Naming
  import FrontMatter
  import Markdown

  /** The title chosen and the Markdown text that is converted. */
  datatype Resolved = Resolved(title: string, content: string)

  /** A line `re.search(r'^# (.+)$', ..., re.MULTILINE)` can match: `# ` and at least
      one more character. */
  predicate IsTitleLine(l: string) {
    |l| > 2 && l[0] == '#' && l[1] == ' '
  }

  /** The first title line at or after `from`. */
  function FirstTitleLine(ls: seq<string>, from: nat): (r: Option<nat>)
    requires from <= |ls|
    ensures r.Some? ==> (from <= r.value < |ls| && IsTitleLine(ls[r.value])
                         && forall j :: from <= j < r.value ==> !IsTitleLine(ls[j]))
    ensures r.None? ==> forall j :: from <= j < |ls| ==> !IsTitleLine(ls[j])
    decreases |ls| - from
  {
    if from == |ls| then None
    else if IsTitleLine(ls[from]) then Some(from)
    else FirstTitleLine(ls, from + 1)
  }

  /** The lines without line `i`. */
  function WithoutLine(ls: seq<string>, i: nat): (r: seq<string>)
    requires i < |ls|
    ensures |r| == |ls| - 1
    ensures forall j :: 0 <= j < i ==> r[j] == ls[j]
    ensures forall j :: i <= j < |r| ==> r[j] == ls[j + 1]
  {
    ls[..i] + ls[i + 1..]
  }

  /** Title resolution in `main`, with the removal applied where the title was found.
      An explicit title is used as it is and the text is left alone. Otherwise the first
      title line of the raw text (front matter included) gives the title, and that line
      is removed with its line break, which can happen only when a line break follows
      it: this is `re.sub(r'^# .+\n', '', ..., count=1)` with the MULTILINE flag the
      search uses. Otherwise the title comes from the file name and the text is left
      alone. `ResolveTitleAsWritten` is the removal as the code performs it. */
  function ResolveTitle(explicit: Option<string>, content: string, filename: string): (r: Resolved)
    ensures explicit.Some? ==> r == Resolved(explicit.value, content)
    ensures explicit.None? && FirstTitleLine(Lines(content), 0).None? ==>
      r == Resolved(Naming.TitleFromFilename(filename), content)
    ensures explicit.None? && FirstTitleLine(Lines(content), 0).Some? ==>
      var ls := Lines(content);
      var i := FirstTitleLine(ls, 0).value;
      StartsWith(ls[i], "# ") && "# " + r.title == ls[i] && r.title != []
      && (i == |ls| - 1 ==> r.content == content)
      && (i < |ls| - 1 ==> Lines(r.content) == WithoutLine(ls, i))
  {
    match explicit
    case Some(t) => Resolved(t, content)
    case None =>
      var ls := Lines(content);
      match FirstTitleLine(ls, 0)
      case Some(i) =>
        var title := ls[i][2..];
        assert ls[i][..2] == "# ";
        assert "# " + title == ls[i];
        if i < |ls| - 1 then
          var rest := WithoutLine(ls, i);
          LinesOfUnlines(rest);
          Resolved(title, Unlines(rest))
        else Resolved(title, content)
      case None => Resolved(Naming.TitleFromFilename(filename), content)
  }

  /** `re.sub(r'^# .+\n', '', s, count=1)` without flags: `^` holds only at offset 0,
      so the text loses its first line only when that line is a title line followed by
      a line break; otherwise it is unchanged. */
  function RemoveLeadingHeading(s: string): (r: string)
    ensures r == s || (exists n :: 2 < n < |s| && s[..2] == "# " && s[n] == '\n'
                         && (forall i :: 0 <= i < n ==> s[i] != '\n') && r == s[n + 1..])
  {
    var n := IndexFrom(s, '\n', 0);
    if |s| >= 2 && s[..2] == "# " && 2 < n < |s| then s[n + 1..] else s
  }

  /** Title resolution as `main` performs it: the title is searched for on every line,
      but the line is removed only when it is the first line of the text. */
  function ResolveTitleAsWritten(explicit: Option<string>, content: string, filename: string): (r: Resolved)
    ensures explicit.Some? ==> r == Resolved(explicit.value, content)
    ensures explicit.None? && FirstTitleLine(Lines(content), 0).None? ==>
      r == Resolved(Naming.TitleFromFilename(filename), content)
    ensures explicit.None? && FirstTitleLine(Lines(content), 0).Some? ==>
      var ls := Lines(content);
      "# " + r.title == ls[FirstTitleLine(ls, 0).value]
      && r.content == RemoveLeadingHeading(content)
  {
    match explicit
    case Some(t) => Resolved(t, content)
    case None =>
      var ls := Lines(content);
      match FirstTitleLine(ls, 0)
      case Some(i) =>
        assert ls[i][..2] == "# ";
        Resolved(ls[i][2..], RemoveLeadingHeading(content))
      case None => Resolved(Naming.TitleFromFilename(filename), content)
  }

  /** A title line after the first line: the code takes its title but leaves the line in
      the text, so the page shows the title twice; removing it where it was found leaves
      the lines around it joined by one line break. */
  lemma HeadingAfterFirstLineKept(a: string, t: string, b: string, filename: string)
    requires !IsTitleLine(a) && '\n' !in a
    requires t != [] && '\n' !in t
    ensures var content := a + "\n# " + t + "\n" + b;
      ResolveTitleAsWritten(None, content, filename) == Resolved(t, content)
      && ResolveTitle(None, content, filename) == Resolved(t, a + "\n" + b)
  {
    var l := "# " + t;
    var content := a + "\n# " + t + "\n" + b;
    SecondLineHeading(a, l, b);
    assert content == a + "\n" + (l + "\n" + b);
    var ls := Lines(content);
    assert ls == [a, l] + Lines(b);
    assert !IsTitleLine(ls[0]) && IsTitleLine(ls[1]);
    assert FirstTitleLine(ls, 0) == Some(1);
    assert l[2..] == t;
    FirstLineStays(a, content);
    var rest := WithoutLine(ls, 1);
    assert rest == [a] + Lines(b);
    UnlinesCons(a, Lines(b));
  }

  /** When the title line opens the text, the code and the corrected resolution agree:
      both take the title and drop the line with its line break. */
  lemma LeadingHeadingAgrees(t: string, b: string, filename: string)
    requires t != [] && '\n' !in t
    ensures var content := "# " + t + "\n" + b;
      ResolveTitleAsWritten(None, content, filename) == Resolved(t, b)
      && ResolveTitle(None, content, filename) == Resolved(t, b)
  {
    var l := "# " + t;
    var content := "# " + t + "\n" + b;
    assert content == l + "\n" + b;
    LinesCons(l, b);
    var ls := Lines(content);
    assert ls == [l] + Lines(b);
    assert IsTitleLine(ls[0]);
    assert l[2..] == t;
    IndexFromIs(content, '\n', 0, |l|);
    assert content[..2] == "# ";
    assert content[|l| + 1..] == b;
    assert WithoutLine(ls, 0) == Lines(b);
  }

  lemma SecondLineHeading(a: string, l: string, b: string)
    requires '\n' !in a && '\n' !in l
    ensures Lines(a + "\n" + (l + "\n" + b)) == [a, l] + Lines(b)
  {
    LinesCons(a, l + "\n" + b);
    LinesCons(l, b);
  }

  /** A first line that is no title line is never removed. */
  lemma FirstLineStays(a: string, s: string)
    requires !IsTitleLine(a) && '\n' !in a
    requires |s| > |a| && s[..|a|] == a && s[|a|] == '\n'
    ensures RemoveLeadingHeading(s) == s
  {
    IndexFromIs(s, '\n', 0, |a|);
    if 2 < |a| {
      assert a[..2] == s[..2];
    }
  }

  /** Where line `i` starts in the text whose lines are `ls`. */
  function LineStart(ls: seq<string>, i: nat): nat
    requires i < |ls|
  {
    if i == 0 then 0 else |Unlines(ls[..i])| + 1
  }

  /** The removal is a splice: the text is the new text with the title line and one
      line break put back at the start of a line. */
  lemma RemovalIsSplice(content: string, filename: string)
    requires FirstTitleLine(Lines(content), 0).Some?
    requires FirstTitleLine(Lines(content), 0).value < |Lines(content)| - 1
    ensures var ls := Lines(content);
      var i := FirstTitleLine(ls, 0).value;
      var r := ResolveTitle(None, content, filename);
      var k := LineStart(ls, i);
      k <= |r.content| && (k == 0 || r.content[k - 1] == '\n')
      && content == r.content[..k] + ls[i] + "\n" + r.content[k..]
  {
    var ls := Lines(content);
    var i := FirstTitleLine(ls, 0).value;
    assert ResolveTitle(None, content, filename).content == Unlines(WithoutLine(ls, i));
    SpliceAt(ls, i);
  }

  /** Dropping line `i` (not the last) from the joined lines removes exactly that
      line and the line break after it. */
  lemma SpliceAt(ls: seq<string>, i: nat)
    requires i < |ls| - 1
    ensures var out := Unlines(WithoutLine(ls, i));
      var k := LineStart(ls, i);
      k <= |out| && (k == 0 || out[k - 1] == '\n')
      && Unlines(ls) == out[..k] + ls[i] + "\n" + out[k..]
  {
    var rest := WithoutLine(ls, i);
    var out := Unlines(rest);
    if i == 0 {
      JoinSplit("\n", ls, 1);
      assert ls[..1] == [ls[0]];
      assert rest == ls[1..];
      assert out[..0] == [] && out[0..] == out;
    } else {
      var front := Unlines(ls[..i]);
      var back := Unlines(ls[i + 1..]);
      SpliceParts(ls, i);
      JoinSplit("\n", rest, i);
      assert rest[..i] == ls[..i];
      assert rest[i..] == ls[i + 1..];
      assert out == front + "\n" + back;
      assert out[..|front| + 1] == front + "\n";
      assert out[|front| + 1..] == back;
    }
  }

  lemma SpliceParts(ls: seq<string>, i: nat)
    requires 0 < i < |ls| - 1
    ensures Unlines(ls) == Unlines(ls[..i]) + "\n" + ls[i] + "\n" + Unlines(ls[i + 1..])
  {
    JoinSplit("\n", ls, i);
    JoinSplit("\n", ls[i..], 1);
    assert ls[i..][..1] == [ls[i]];
    assert ls[i..][1..] == ls[i + 1..];
  }

  /** A title line that is the last line, with no line break after it, gives the title
      and stays in the text; the converter then renders it as a heading. */
  lemma FinalHeadingStays(t: string, filename: string)
    requires t != [] && forall i :: 0 <= i < |t| ==> t[i] != '\n'
    ensures ResolveTitle(None, "# " + t, filename) == Resolved(t, "# " + t)
  {
    var l := "# " + t;
    IndexFromIs(l, '\n', 0, |l|);
    assert Lines(l) == [l];
    assert IsTitleLine(l);
    assert l[2..] == t;
  }

  /** The search runs on the raw text: a title line inside front matter gives the title
      and is removed, and the two fences left behind still form a block that the
      converter strips. */
  lemma HeadingInsideFrontMatter(t: string, body: string, filename: string)
    requires t != [] && forall i :: 0 <= i < |t| ==> t[i] != '\n'
    ensures var r := ResolveTitle(None, "---\n# " + t + "\n---\n" + body, filename);
      r == Resolved(t, "---\n---\n" + body)
      && FrontMatter.StripFrontMatter(r.content) == body
  {
    var l := "# " + t;
    var content := "---\n# " + t + "\n---\n" + body;
    FrontMatterHeadingLines(t, body);
    var ls := Lines(content);
    assert !IsTitleLine(ls[0]) && IsTitleLine(ls[1]);
    assert FirstTitleLine(ls, 0) == Some(1);
    assert l[2..] == t;
    var rest := WithoutLine(ls, 1);
    assert rest == ["---"] + (["---"] + Lines(body));
    TwoFencesUnlines(body);
    FenceBlock(body);
  }

  /** As written, a title line inside front matter gives the title and stays in the
      text, and the front-matter removal then takes it away with the block: the page is
      the same as with the corrected resolution, unless the title ends in `---`. */
  lemma HeadingInsideFrontMatterAsWritten(t: string, body: string, filename: string)
    requires t != [] && forall i :: 0 <= i < |t| ==> t[i] != '\n'
    requires !EndsWith(t, "---")
    ensures var content := "---\n# " + t + "\n---\n" + body;
      var r := ResolveTitleAsWritten(None, content, filename);
      r == Resolved(t, content) && FrontMatter.StripFrontMatter(r.content) == body
  {
    var l := "# " + t;
    var content := "---\n# " + t + "\n---\n" + body;
    FrontMatterHeadingLines(t, body);
    var ls := Lines(content);
    assert !IsTitleLine(ls[0]) && IsTitleLine(ls[1]);
    assert FirstTitleLine(ls, 0) == Some(1);
    assert l[2..] == t;
    assert content[..2] == "--";
    assert RemoveLeadingHeading(content) == content;
    var block := l + "\n";
    TitleBlockHasNoFence(t, block);
    assert content == FrontMatter.Fence + block + FrontMatter.Fence + body;
    FrontMatter.StripsLeadingBlock(block, body);
  }

  /** The only place a fence could start inside a title line is its last three
      characters, followed by the line break. */
  lemma TitleBlockHasNoFence(t: string, block: string)
    requires t != [] && forall i :: 0 <= i < |t| ==> t[i] != '\n'
    requires !EndsWith(t, "---")
    requires block == "# " + t + "\n"
    ensures FrontMatter.NoFenceIn(block)
  {
    forall k | 0 <= k < |block|
      ensures !FrontMatter.FenceAt(block + FrontMatter.Fence, k)
    {
      NoFenceAtOffset(t, block, k);
    }
  }

  lemma NoFenceAtOffset(t: string, block: string, k: nat)
    requires t != [] && forall i :: 0 <= i < |t| ==> t[i] != '\n'
    requires !EndsWith(t, "---")
    requires block == "# " + t + "\n" && k < |block|
    ensures !FrontMatter.FenceAt(block + FrontMatter.Fence, k)
  {
    var u := block + FrontMatter.Fence;
    var n := |block|;
    var m: nat;
    if k + 3 >= n {
      m := 3;
      assert u[k + m] == FrontMatter.Fence[k + 3 - n];
    } else if k + 3 < n - 1 {
      m := 3;
      assert u[k + m] == t[k + 1];
    } else if k < 2 {
      m := 0;
      assert u[k + m] == block[k];
    } else {
      var e := |t| - 3;
      assert t[e..] == [t[e], t[e + 1], t[e + 2]] && t[e..] != "---";
      m := if t[e] != '-' then 0 else if t[e + 1] != '-' then 1 else 2;
      assert u[k + m] == t[e + m];
    }
    assert u[k + m] != FrontMatter.Fence[m];
    if k + 4 <= |u| {
      assert u[k..k + 4][m] == u[k + m];
    }
  }

  /** As written, a title ending in `---` closes the front-matter block early: the line
      after it, the real closing fence, is left at the start of the converted text. */
  lemma TitleEndingInFence(a: string, body: string)
    requires forall i :: 0 <= i < |a| ==> a[i] != '-'
    ensures FrontMatter.StripFrontMatter("---\n# " + a + "---\n---\n" + body) == "---\n" + body
  {
    var inner := "# " + a;
    assert '-' !in inner by {
      forall i | 0 <= i < |inner| ensures inner[i] != '-' {
        if 2 <= i { assert inner[i] == a[i - 2]; }
      }
    }
    FrontMatter.NoDashNoFence(inner);
    assert "---\n# " + a + "---\n---\n" + body
      == FrontMatter.Fence + inner + FrontMatter.Fence + ("---\n" + body);
    FrontMatter.StripsLeadingBlock(inner, "---\n" + body);
  }

  lemma FrontMatterHeadingLines(t: string, body: string)
    requires forall i :: 0 <= i < |t| ==> t[i] != '\n'
    ensures Lines("---\n# " + t + "\n---\n" + body) == ["---", "# " + t, "---"] + Lines(body)
  {
    var l := "# " + t;
    assert forall i :: 0 <= i < |l| ==> l[i] != '\n';
    var x := "---" + "\n" + body;
    var y := l + "\n" + x;
    assert "---\n# " + t + "\n---\n" + body == "---" + "\n" + y;
    LinesCons("---", y);
    LinesCons(l, x);
    LinesCons("---", body);
  }

  lemma TwoFencesUnlines(body: string)
    ensures Unlines(["---"] + (["---"] + Lines(body))) == "---\n---\n" + body
  {
    var ls := Lines(body);
    UnlinesCons("---", ls);
    UnlinesCons("---", ["---"] + ls);
    assert "---" + "\n" + ("---" + "\n" + body) == "---\n---\n" + body;
  }

  lemma UnlinesCons(a: string, ls: seq<string>)
    requires |ls| >= 1
    ensures Unlines([a] + ls) == a + "\n" + Unlines(ls)
  {
    assert ([a] + ls)[1..] == ls;
  }

  /** Two fences in a row are an empty front-matter block. */
  lemma FenceBlock(body: string)
    ensures FrontMatter.StripFrontMatter("---\n---\n" + body) == body
  {
    var s := "---\n---\n" + body;
    assert s[..4] == FrontMatter.Fence;
    assert s[4..8] == FrontMatter.Fence;
    assert FrontMatter.FindFence(s, 4) == Some(4);
    assert s[8..] == body;
  }

  // ---------------------------------------------------------------------------------
  // The page
  // ---------------------------------------------------------------------------------

  /** The date `create_essay_html` is called with by default. */
  const DefaultDate: string := "2026"

  /** The page up to the `<title>` element. */
  const PageHead: string := Doctype + HeadMeta

  const Doctype: string := "<!DOCTYPE html>\n"

  const HeadMeta: string :=
    "<html lang=\"en\">\n<head>\n    <meta charset=\"UTF-8\">\n"
    + "    <meta name=\"viewport\" content=\"width=device-width, initial-scale=1.0\">\n    "

  /** The page from the last `div` to the end. */
  const PageEnd: string := Footer + HtmlClose

  const Footer: string :=
    "\n        \n        <hr>\n        \n        <div class=\"footer\">\n"
    + "            &copy; 2026 Daksh Mehta\n        </div>\n    </div>\n</body>\n"

  const HtmlClose: string := "</html>\n"

  function TitleElement(title: string): string {
    "<title>" + title + " - Daksh Mehta</title>"
  }

  /** From the `<title>` element to the `<h1>`, holding the stylesheet. */
  function StyleBlock(style: string): string {
    "\n    <style>" + style + "</style>\n</head>\n<body>\n    <div class=\"container\">\n        "
  }

  function HeadingElement(title: string): string {
    "<h1>" + title + "</h1>"
  }

  /** From the `<h1>` to the content, holding the date and the navigation links. */
  function DateAndNav(date: string): string {
    "\n        <div class=\"date\">" + date + "</div>\n        \n        <div class=\"nav\">\n"
    + "            <a href=\"../index.html\">Home</a>\n"
    + "            <a href=\"../articles.html\">Essays</a>\n"
    + "            <a href=\"../about.html\">About</a>\n"
    + "        </div>\n        \n        <hr>\n        \n        "
  }

  function ContentDiv(content: string): string {
    "<div class=\"content\">\n            " + content + "\n        </div>"
  }

  /** `t` occurs in `s` at offset `k`. */
  predicate ContainsAt(s: string, t: string, k: nat) {
    k + |t| <= |s| && s[k..k + |t|] == t
  }

  /** `create_essay_html`, with the stylesheet between the `<style>` tags given as
      `style`: the page opens with the document type and ends with `</html>` and a
      line break; the title is both the `<title>` (followed by the author's name) and the
      `<h1>`, and the converted text sits in the content `div` just before the footer. */
  function EssayPage(style: string, title: string, content: string, date: string): (r: string)
    ensures StartsWith(r, Doctype) && EndsWith(r, HtmlClose)
  {
    var r := Page(PageHead, TitleElement(title), StyleBlock(style), HeadingElement(title),
                  DateAndNav(date), ContentDiv(content), PageEnd);
    Layout(PageHead, TitleElement(title), StyleBlock(style), HeadingElement(title),
           DateAndNav(date), ContentDiv(content), PageEnd);
    PrefixSuffix(Doctype, HeadMeta);
    PrefixSuffix(Footer, HtmlClose);
    r
  }

  /** The title is both the `<title>` (followed by the author's name) and the `<h1>`,
      and the converted text sits in the content `div` just before the footer. */
  lemma PageLayout(style: string, title: string, content: string, date: string)
    ensures var r := EssayPage(style, title, content, date);
      ContainsAt(r, TitleElement(title), |PageHead|)
      && ContainsAt(r, HeadingElement(title), |PageHead| + |TitleElement(title)| + |StyleBlock(style)|)
      && ContainsAt(r, ContentDiv(content), |PageHead| + |TitleElement(title)| + |StyleBlock(style)|
                                            + |HeadingElement(title)| + |DateAndNav(date)|)
      && |r| == |PageHead| + |TitleElement(title)| + |StyleBlock(style)| + |HeadingElement(title)|
                + |DateAndNav(date)| + |ContentDiv(content)| + |PageEnd|
  {
    Layout(PageHead, TitleElement(title), StyleBlock(style), HeadingElement(title),
           DateAndNav(date), ContentDiv(content), PageEnd);
  }

  /** A page made of seven pieces in order. */
  function Page(a: string, t: string, b: string, h: string, d: string, c: string, e: string): string {
    a + t + b + h + d + c + e
  }

  /** Where each piece of a page sits. */
  lemma Layout(a: string, t: string, b: string, h: string, d: string, c: string, e: string)
    ensures var r := Page(a, t, b, h, d, c, e);
      ContainsAt(r, t, |a|) && ContainsAt(r, h, |a| + |t| + |b|)
      && ContainsAt(r, c, |a| + |t| + |b| + |h| + |d|)
      && |r| == |a| + |t| + |b| + |h| + |d| + |c| + |e|
      && (StartsWith(a, Doctype) ==> StartsWith(r, Doctype))
      && (EndsWith(e, HtmlClose) ==> EndsWith(r, HtmlClose))
  {
    var r := Page(a, t, b, h, d, c, e);
    assert r[|a|..|a| + |t|] == t;
    assert r[|a| + |t| + |b|..|a| + |t| + |b| + |h|] == h;
    assert r[|a| + |t| + |b| + |h| + |d|..|a| + |t| + |b| + |h| + |d| + |c|] == c;
    if StartsWith(a, Doctype) {
      assert r[..|Doctype|] == a[..|Doctype|];
    }
    if EndsWith(e, HtmlClose) {
      assert r[|r| - |HtmlClose|..] == e[|e| - |HtmlClose|..];
    }
  }

  lemma PrefixSuffix(x: string, y: string)
    ensures StartsWith(x + y, x) && EndsWith(x + y, y)
  {
    assert (x + y)[..|x|] == x;
    assert (x + y)[|x| + |y| - |y|..] == y;
  }

  // ---------------------------------------------------------------------------------
  // main without its input and output
  // ---------------------------------------------------------------------------------

  /** The steps of `main` once the title is chosen: convert the text, fill the template,
      and name the output file after the title in the essays directory. */
  method WritePage(resolved: Resolved, essaysDir: string, style: string)
    returns (outputFile: string, fullHtml: string)
    ensures fullHtml == EssayPage(style, resolved.title, Markdown.Fragment(resolved.content), DefaultDate)
    ensures outputFile == essaysDir + "/" + Naming.FilenameFromTitle(resolved.title)
    ensures EndsWith(outputFile, ".html") && StartsWith(outputFile, essaysDir + "/")
  {
    var htmlContent := Markdown.MarkdownToHtml(resolved.content);
    fullHtml := EssayPage(style, resolved.title, htmlContent, DefaultDate);
    var name := Naming.FilenameFromTitle(resolved.title);
    outputFile := essaysDir + "/" + name;
    OutputPath(essaysDir, name);
  }

  /** The steps of `main` after the file is read, as the script performs them: the title
      line is searched for on every line but removed only from the first line. */
  method PublishAsWritten(explicit: Option<string>, mdContent: string, mdFile: string,
                          essaysDir: string, style: string)
    returns (outputFile: string, fullHtml: string)
    ensures var r := ResolveTitleAsWritten(explicit, mdContent, mdFile);
      fullHtml == EssayPage(style, r.title, Markdown.Fragment(r.content), DefaultDate)
      && outputFile == essaysDir + "/" + Naming.FilenameFromTitle(r.title)
    ensures EndsWith(outputFile, ".html") && StartsWith(outputFile, essaysDir + "/")
  {
    outputFile, fullHtml := WritePage(ResolveTitleAsWritten(explicit, mdContent, mdFile), essaysDir, style);
  }

  /** The same steps with the title line removed where it was found. */
  method Publish(explicit: Option<string>, mdContent: string, mdFile: string, essaysDir: string,
                 style: string)
    returns (outputFile: string, fullHtml: string)
    ensures var r := ResolveTitle(explicit, mdContent, mdFile);
      fullHtml == EssayPage(style, r.title, Markdown.Fragment(r.content), DefaultDate)
      && outputFile == essaysDir + "/" + Naming.FilenameFromTitle(r.title)
    ensures EndsWith(outputFile, ".html") && StartsWith(outputFile, essaysDir + "/")
  {
    outputFile, fullHtml := WritePage(ResolveTitle(explicit, mdContent, mdFile), essaysDir, style);
  }

  lemma OutputPath(dir: string, name: string)
    requires EndsWith(name, ".html")
    ensures EndsWith(dir + "/" + name, ".html") && StartsWith(dir + "/" + name, dir + "/")
  {
    var p := dir + "/" + name;
    assert p[|p| - 5..] == name[|name| - 5..];
    assert p[..|dir| + 1] == dir + "/";
  }
}
