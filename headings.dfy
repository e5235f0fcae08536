/**
 * Heading conversion: the four line-anchored substitutions `^#### (.+)$` down to
 * `^# (.+)$` of `markdown_to_html`, applied with MULTILINE in that order.
 *
 * With MULTILINE, `^` and `$` hold at line boundaries and `.+` never crosses a newline,
 * so each substitution rewrites whole lines independently of one another.
 */
module Headings {
  import opened Text

  /** `k` hash marks. */
  function Hashes(k: nat): (r: string)
    ensures |r| == k && forall i :: 0 <= i < k ==> r[i] == '#'
  {
    seq(k, _ => '#')
  }

  function Digit(k: nat): char
    requires k <= 9
  {
    ('0' as int + k) as char
  }

  function OpenTag(k: nat): (r: string)
    requires k <= 9
    ensures |r| == 4 && r[0] == '<' && '\n' !in r
  {
    "<h" + [Digit(k)] + ">"
  }

  function CloseTag(k: nat): (r: string)
    requires k <= 9
    ensures '\n' !in r
  {
    "</h" + [Digit(k)] + ">"
  }

  /** What the level-`k` substitution does to one line: `k` marks, a space and at least
      one more character become the rest of the line inside `<hk>` tags. */
  function HeadingLine(k: nat, line: string): string
    requires 1 <= k <= 4
  {
    if |line| > k + 1 && StartsWith(line, Hashes(k) + " ") then
      OpenTag(k) + line[k + 1..] + CloseTag(k)
    else line
  }

  /** One substitution `re.sub(r'^#{k} (.+)$', r'<hk>\1</hk>', s, flags=re.MULTILINE)`.
      It keeps the line structure: the lines of the result are the input lines, each
      converted on its own. */
  function HeadingPass(k: nat, s: string): (r: string)
    requires 1 <= k <= 4
    ensures Lines(r) == PassLines(k, Lines(s))
  {
    var out := PassLines(k, Lines(s));
    ConvertedLinesNoNewline(k, Lines(s));
    LinesOfUnlines(out);
    Unlines(out)
  }

  /** The lines after the level-`k` pass, each line converted on its own. */
  function PassLines(k: nat, ls: seq<string>): (out: seq<string>)
    requires 1 <= k <= 4
    ensures |out| == |ls|
  {
    seq(|ls|, i requires 0 <= i < |ls| => HeadingLine(k, ls[i]))
  }

  lemma ConvertedLinesNoNewline(k: nat, ls: seq<string>)
    requires 1 <= k <= 4
    requires forall i :: 0 <= i < |ls| ==> '\n' !in ls[i]
    ensures forall i :: 0 <= i < |ls| ==> '\n' !in PassLines(k, ls)[i]
  {
    forall i | 0 <= i < |ls|
      ensures '\n' !in PassLines(k, ls)[i]
    {
      HeadingLineNoNewline(k, ls[i]);
    }
  }

  /** The four heading substitutions, longest marker first. They map every line
      `'#'*k + ' ' + rest` (k in 1..4, rest not empty) to `<hk>rest</hk>`, leave every
      other line as it is, and keep the lines in place. */
  function ConvertHeadings(s: string): (r: string)
    ensures Lines(r) == SpecLines(Lines(s))
  {
    FourPassesPerLine(s);
    HeadingPass(1, HeadingPass(2, HeadingPass(3, HeadingPass(4, s))))
  }

  /** The number of `#` a line begins with. */
  function LeadingHashes(line: string): (n: nat)
    ensures n <= |line|
    ensures forall i :: 0 <= i < n ==> line[i] == '#'
    ensures n < |line| ==> line[n] != '#'
    decreases |line|
  {
    if line != [] && line[0] == '#' then 1 + LeadingHashes(line[1..]) else 0
  }

  /** The heading level of a line: `k` in 1..4 when the line is `k` marks, a space and a
      non-empty rest; 0 for every other line. */
  function Level(line: string): (k: nat)
    ensures k <= 4
  {
    var n := LeadingHashes(line);
    if 1 <= n <= 4 && |line| > n + 1 && line[n] == ' ' then n else 0
  }

  /** Every line given its reference conversion. */
  function SpecLines(ls: seq<string>): (out: seq<string>)
    ensures |out| == |ls|
  {
    seq(|ls|, i requires 0 <= i < |ls| => HeadingSpec(ls[i]))
  }

  /** Reference definition of the heading step on one line: a line changes exactly when
      it has a heading level, and no line break appears. */
  function HeadingSpec(line: string): (r: string)
    ensures r == line <==> Level(line) == 0
    ensures '\n' !in line ==> '\n' !in r
  {
    var k := Level(line);
    if k == 0 then line
    else
      assert line[0] == '#';
      assert forall c :: c in line[k + 1..] ==> c in line;
      OpenTag(k) + line[k + 1..] + CloseTag(k)
  }

  /** The level-`k` pattern fires on a line exactly when the line has level `k`. */
  lemma MarkerIffLevel(k: nat, line: string)
    requires 1 <= k <= 4
    ensures (|line| > k + 1 && StartsWith(line, Hashes(k) + " ")) <==> Level(line) == k
  {
    var n := LeadingHashes(line);
    if |line| > k + 1 && StartsWith(line, Hashes(k) + " ") {
      assert forall i :: 0 <= i < k ==> line[i] == (Hashes(k) + " ")[i];
      assert line[k] == (Hashes(k) + " ")[k];
      assert n == k;
    }
    if Level(line) == k {
      assert line[..k + 1] == Hashes(k) + " ";
    }
  }

  /** A line that was already rewritten opens with `<` and no later pass touches it. */
  lemma ConvertedLineStays(j: nat, k: nat, line: string)
    requires 1 <= j <= 4 && 1 <= k <= 4
    ensures HeadingLine(j, OpenTag(k) + line + CloseTag(k)) == OpenTag(k) + line + CloseTag(k)
  {
    var t := OpenTag(k) + line + CloseTag(k);
    assert t[0] == '<';
    if |t| > j + 1 {
      assert t[..j + 1][0] != (Hashes(j) + " ")[0];
    }
  }

  /** The four passes in source order give each line its reference conversion, whatever
      order the marker lengths come in. */
  lemma {:induction false} HeadingLineComposed(line: string)
    ensures HeadingLine(1, HeadingLine(2, HeadingLine(3, HeadingLine(4, line)))) == HeadingSpec(line)
  {
    var k := Level(line);
    var l4 := HeadingLine(4, line);
    var l3 := HeadingLine(3, l4);
    var l2 := HeadingLine(2, l3);
    if k == 0 {
      MarkerIffLevel(4, line);
      assert l4 == line;
      MarkerIffLevel(3, line);
      assert l3 == line;
      MarkerIffLevel(2, line);
      assert l2 == line;
      MarkerIffLevel(1, line);
    } else {
      var rest := line[k + 1..];
      var spec := OpenTag(k) + rest + CloseTag(k);
      assert HeadingSpec(line) == spec;
      PassesUpTo(k, line);
      ConvertedLineStays(1, k, rest);
      ConvertedLineStays(2, k, rest);
      ConvertedLineStays(3, k, rest);
    }
  }

  /** The passes before level `k` leave a level-`k` line alone and the level-`k` pass
      converts it. */
  lemma PassesUpTo(k: nat, line: string)
    requires 1 <= k <= 4 && Level(line) == k
    ensures var spec := OpenTag(k) + line[k + 1..] + CloseTag(k);
      (k == 4 ==> HeadingLine(4, line) == spec)
      && (k == 3 ==> HeadingLine(3, HeadingLine(4, line)) == spec)
      && (k == 2 ==> HeadingLine(2, HeadingLine(3, HeadingLine(4, line))) == spec)
      && (k == 1 ==> HeadingLine(1, HeadingLine(2, HeadingLine(3, HeadingLine(4, line)))) == spec)
  {
    MarkerIffLevel(k, line);
    if k < 4 { MarkerIffLevel(4, line); }
    if k < 3 { MarkerIffLevel(3, line); }
    if k < 2 { MarkerIffLevel(2, line); }
  }

  lemma HeadingLineNoNewline(k: nat, line: string)
    requires 1 <= k <= 4
    requires '\n' !in line
    ensures '\n' !in HeadingLine(k, line)
  {
    if |line| > k + 1 && StartsWith(line, Hashes(k) + " ") {
      assert forall c :: c in line[k + 1..] ==> c in line;
    }
  }

  /** The four passes in source order give each line its reference conversion and keep
      the lines in place. */
  lemma FourPassesPerLine(s: string)
    ensures Lines(HeadingPass(1, HeadingPass(2, HeadingPass(3, HeadingPass(4, s)))))
      == SpecLines(Lines(s))
  {
    var ls := Lines(s);
    var s4 := HeadingPass(4, s);
    var s3 := HeadingPass(3, s4);
    var s2 := HeadingPass(2, s3);
    var s1 := HeadingPass(1, s2);
    PassAt(4, s);
    PassAt(3, s4);
    PassAt(2, s3);
    PassAt(1, s2);
    var spec := SpecLines(ls);
    assert |Lines(s1)| == |spec|;
    forall i | 0 <= i < |ls|
      ensures Lines(s1)[i] == spec[i]
    {
      assert Lines(s1)[i] == HeadingLine(1, HeadingLine(2, HeadingLine(3, HeadingLine(4, ls[i]))));
      HeadingLineComposed(ls[i]);
    }
  }

  /** A pass keeps the number of lines and converts line `i` on its own. */
  lemma PassAt(k: nat, s: string)
    requires 1 <= k <= 4
    ensures |Lines(HeadingPass(k, s))| == |Lines(s)|
    ensures forall i :: 0 <= i < |Lines(s)| ==>
      Lines(HeadingPass(k, s))[i] == HeadingLine(k, Lines(s)[i])
  {
  }

  /** Text without `#` passes through heading conversion unchanged. */
  lemma ConvertHeadingsIdentity(s: string)
    requires '#' !in s
    ensures ConvertHeadings(s) == s
  {
    var ls := Lines(s);
    NoHeadingLines(s);
    assert Lines(ConvertHeadings(s)) == ls;
  }

  /** Text without `#` has no heading line. */
  lemma NoHeadingLines(s: string)
    requires '#' !in s
    ensures forall i :: 0 <= i < |Lines(s)| ==> Level(Lines(s)[i]) == 0
  {
    var ls := Lines(s);
    forall i | 0 <= i < |ls|
      ensures Level(ls[i]) == 0
    {
      if ls[i] != [] && ls[i][0] == '#' {
        JoinKeepsPieces("\n", ls, i, '#');
      }
    }
  }

  /** Worked examples: the marker length picks the tag; five marks, a missing text or a
      missing space leave the line alone. */
  lemma HeadingExampleLevel2()
    ensures HeadingSpec("## Intro") == "<h2>Intro</h2>"
  {
    var line := "## Intro";
    assert line[1..] == "# Intro" && line[2..] == " Intro";
    assert LeadingHashes(line[2..]) == 0;
    assert LeadingHashes(line) == 2;
    assert line[3..] == "Intro";
  }

  lemma HeadingExampleFiveMarks()
    ensures HeadingSpec("##### Deep") == "##### Deep"
  {
    var line := "##### Deep";
    assert line[5] != '#';
    assert LeadingHashes(line) >= 5;
  }

  lemma HeadingExampleEmptyText()
    ensures HeadingSpec("### ") == "### "
  {
  }

  lemma HeadingExampleNoSpace()
    ensures HeadingSpec("#Tight") == "#Tight"
  {
    var line := "#Tight";
    assert line[1..] == "Tight";
    assert LeadingHashes(line[1..]) == 0;
  }
}
