# Essay publisher: a Dafny model of `publish.py`

`publish.py` turns one Markdown essay into a styled HTML page. It does four things:

- It chooses a title:
  - the title given on the command line;
  - else the text of the first `# ` heading line;
  - else a title made from the file name.
- It converts the Markdown to an HTML fragment with a chain of regular-expression
  substitutions:
  - front matter is removed;
  - headings of levels 4 down to 1 are converted;
  - then bold/italic, links and inline code;
  - a paragraph pass splits on blank lines, wraps plain paragraphs in `<p>` and joins
    the blocks with a fixed separator.
- It fills a fixed page template with the title, the date and the fragment.
- It names the output file after the title, in the `essays` directory.

The model keeps that structure, one module per stage:

| module | models |
|---|---|
| `Text` | the Python string operations the script relies on, on ASCII (`str.lower`, `str.strip`, `str.replace`, `str.join`, and splitting on one character for lines and path components) |
| `FrontMatter` | the DOTALL, non-MULTILINE front-matter substitution |
| `Headings` | the four MULTILINE heading substitutions |
| `Inline` | the emphasis, link and code substitutions |
| `Paragraphs` | `re.split(r'\n\s*\n', …)` and the per-piece rendering |
| `Markdown` | `markdown_to_html` itself: a method that rebinds the text through each substitution, and a loop over the pieces |
| `Naming` | `filename_from_title`, `title_from_filename` and the POSIX `Path.name` / `Path.stem` rules they use |
| `Publish` | title resolution, `create_essay_html`, and the rest of `main` without its input and output |

The four MULTILINE heading substitutions are modelled line by line: the text is split
into its lines, each line is rewritten or kept, and the lines are joined again. The
substitution of line breaks by spaces is a per-character replacement. The emphasis,
link and code substitutions are modelled as left-to-right scanners, as the regex engine
walks the text:

- at each offset it tries the pattern;
- a match becomes a token and scanning resumes after it;
- otherwise the character is copied.

Each scanner is proved against its partner, `Unscan`, and against the pattern's own
match function (`EmphasisClose`, `LinkAt`, `CodeAt`). Reading the tokens back gives the
input. At every token, the text from there on decides the token: a literal character
stands only where the pattern does not match, and a match token is exactly the match
the pattern finds there. This determines the tokens: any token list meeting a
scanner's contract is the scanner's result (`Inline.DecidedUnique`). Every match token
also satisfies the pattern's conditions:

- lazy emphasis spans are the shortest and stay on one line;
- link text has no `]` and the URL no `)`;
- code spans are non-empty and hold no backtick.

The code is followed where the Markdown conventions would differ:

- Link text, link URLs and code spans may run over a line break. Their character
  classes exclude only `]`, `)` and the backtick.
- Emphasis stops at a line break, because `.` does not match one.
- Front matter is recognised only at offset 0. Its closing fence need not start a line.
- The title search runs on the raw text, front matter included.
- Front-matter removal takes one leading block per call, so it is not idempotent
  (`FrontMatter.NotIdempotent`).

## Model

| member | source | states |
|---|---|---|
| Text.Lower | publish.py:186 | `str.lower` on ASCII: same length, each upper-case letter mapped to its lower-case form, everything else kept |
| Text.LowerIdempotent | publish.py:186 | lower-casing twice is lower-casing once |
| Text.ReplaceChar | publish.py:53 | `str.replace` of one character: same length, each occurrence replaced, every other character kept |
| Text.StripLeft | publish.py:45 | the result is a suffix, everything dropped is whitespace, and the result does not start with whitespace |
| Text.StripRight | publish.py:45 | the result is a prefix, everything dropped is whitespace, and the result does not end with whitespace |
| Text.Strip | publish.py:45 | `str.strip`: the result is a slice of the text with only whitespace before and after it, and none at its own ends; empty exactly when the text is all whitespace; text without whitespace at its ends is unchanged |
| Text.SpaceRunEnd | publish.py:188 | the end of the whitespace run from a position: all before it is whitespace, the next character is not |
| Text.StripEmptyIffAllSpace | publish.py:45-47 | stripping gives the empty string exactly when the piece is all whitespace (both directions) |
| Text.IndexFrom | publish.py:217 | the first occurrence of a character at or after a position (or the end): nothing before it matches |
| Text.Join | publish.py:56 | `str.join`; its properties are stated by `Text.SplitOn`, `Text.SplitOnJoin`, `Text.JoinSplit` and `Text.JoinKeepsPieces` |
| Text.JoinKeepsPieces | publish.py:56 | `str.join` (`Text.Join`): every character of every piece appears in the joined text |
| Text.SplitOn | publish.py:21-24 | splitting on one character, as the MULTILINE patterns see lines and a path has components: at least one piece, no piece holds the separator, and joining with it gives the input back |
| Text.SplitOnJoin | publish.py:21-24 | the inverse direction: splitting what was joined (`str.join`, `Text.Join`) gives the pieces back |
| Text.JoinSplit | publish.py:56 | a join splits at any inner piece into the join of the front, the separator and the join of the back |
| Text.SplitOnSnoc | publish.py:179 | appending a separator and a separator-free piece appends that piece to the split |
| Text.Lines | publish.py:213 | the lines of a text: none holds a line break, and joining them with line breaks gives the text |
| Text.LinesCons | publish.py:213 | a first line without a break followed by the rest splits into that line and the lines of the rest |
| Text.LinesOfUnlines | publish.py:21-24 | lines without breaks, joined and split again, come back unchanged |
| FrontMatter.FindFence | publish.py:18 | the first `---\n` at or after a position; none occurs before it |
| FrontMatter.StripFrontMatter | publish.py:18 | the result is a suffix. Text not opening with a fence is unchanged. Otherwise the cut is: the fence at 0, text holding no fence, then the next fence |
| FrontMatter.StripChangesIff | publish.py:18 | the text changes exactly when it opens with a fence and a second fence follows (both directions) |
| FrontMatter.StripsLeadingBlock | publish.py:18 | a leading block in whose body no fence starts is removed exactly, leaving the rest |
| FrontMatter.FindFenceIs | publish.py:18 | a fence with none before it is the one found |
| FrontMatter.NotIdempotent | publish.py:18 | two leading blocks: one call removes only the first, a second call the other |
| Headings.LeadingHashes | publish.py:21-24 | the length of the run of `#` opening a line |
| Headings.Level | publish.py:21-24 | the heading level of a line is between 0 and 4 |
| Headings.HeadingSpec | publish.py:21-24 | the reference conversion of one line: the line is changed exactly when its level is 1 to 4, and no line break is introduced |
| Headings.MarkerIffLevel | publish.py:21-24 | the level-k pattern `^#{k} (.+)$` fires on a line exactly when the line's level is k (both directions) |
| Headings.ConvertedLineStays | publish.py:21-24 | a line already rewritten to `<hk>…</hk>` is left alone by every later heading pass |
| Headings.PassesUpTo | publish.py:21-24 | the passes before level k leave a level-k line alone, and the level-k pass converts it |
| Headings.HeadingLineComposed | publish.py:21-24 | the four passes in source order give each line its reference conversion `HeadingSpec` |
| Headings.HeadingLineNoNewline | publish.py:21-24 | a heading pass never introduces a line break into a line |
| Headings.HeadingPass | publish.py:21-24 | one `re.sub` with MULTILINE: the lines of the result are the lines of the input, one for one, each converted by the level-k rule |
| Headings.PassAt | publish.py:21-24 | the level-k pass keeps the number of lines, and line i of the result is line i of the input converted |
| Headings.FourPassesPerLine | publish.py:21-24 | the four passes in source order map the lines of the text to their reference conversions |
| Headings.ConvertHeadings | publish.py:21-24 | heading conversion keeps the number and order of lines and maps each line to `HeadingSpec` of that line |
| Headings.ConvertHeadingsIdentity | publish.py:21-24 | text without `#` passes through heading conversion unchanged |
| Headings.HeadingExampleLevel2 | publish.py:23 | `## Intro` becomes `<h2>Intro</h2>` |
| Headings.HeadingExampleFiveMarks | publish.py:21 | five marks are no heading: the line stays |
| Headings.HeadingExampleEmptyText | publish.py:22 | `### ` with nothing after the space is no heading |
| Headings.HeadingExampleNoSpace | publish.py:24 | `#Tight` without the space is no heading |
| Inline.RenderLiterals | publish.py:27-38 | tokens that are all literal characters render as the text they came from |
| Inline.FindClose | publish.py:27-32 | the lazy `.+?` extension: the first position where the closing marker follows on the same line, with no match before it |
| Inline.EmphasisClose | publish.py:27-32 | the emphasis match at the start of a text, if any, has the shortest span; no shorter match exists |
| Inline.EmphasisSpanShortest | publish.py:27-32 | a match splits the text into marker, a non-empty span without a line break or an inner closing marker, marker and rest |
| Inline.ScanEmphasis | publish.py:27-32 | reading the tokens back gives the input. At each token the emphasis match function decides it: a literal character only where no match starts, a match token spanning exactly the shortest one-line match. Without the marker character nothing matches |
| Inline.TakenCons | publish.py:27-38 | the condition that the pattern decides each token holds for a first token followed by a rest, when it holds for the first token at that position and for every token of the rest |
| Inline.DecidedUnique | publish.py:27-38 | two token lists of one pattern that read back to the same text, each token taken where it stands, are equal: the leftmost-match rule leaves no choice |
| Inline.SameFirst | publish.py:27-38 | two tokens taken at the start of one text are the same token and leave the same rest |
| Inline.ScanEmphasisUnique | publish.py:27-32 | any tokens meeting the emphasis scanner's contract are its tokens: the contract determines the substitution |
| Inline.SubEmphasis | publish.py:27-32 | one emphasis substitution leaves text without the marker character unchanged |
| Inline.ConvertEmphasis | publish.py:27-32 | text with no `*` and no `_` is unchanged by the six emphasis substitutions |
| Inline.TripleMatch | publish.py:27 | `***x***` becomes `<strong><em>x</em></strong>` |
| Inline.TripleBeforeDouble | publish.py:27-32 | `***x***` comes out of all six passes as bold italic, not bold around stray single markers |
| Inline.BoldItalicHasNoMarkers | publish.py:27 | the bold-italic replacement of a marker-free span holds no marker character |
| Inline.ConvertEmphasisRest | publish.py:28-32 | the five passes after the first leave marker-free text alone |
| Inline.TrailingMarkerOnly | publish.py:29 | a single closing `*` with no opening one is no match |
| Inline.EmphasisStopsAtNewline | publish.py:29 | `*a\nb*` is left unchanged: emphasis never spans a line break |
| Inline.LinkAt | publish.py:35 | the link match at the start of a text if there is one, and if none, no split into text and URL matches |
| Inline.LinkMatchUnique | publish.py:35 | at an offset the link pattern matches in at most one way |
| Inline.LinkSplit | publish.py:35 | a link match splits the text into the link's source and the rest, with well-formed text and URL |
| Inline.ScanLinks | publish.py:35 | reading the tokens back gives the input. At each token the link match function decides it: a literal character only where no link starts, a link token exactly the match found there, with text free of `]` and URL free of `)`. Without `[` there is no link |
| Inline.ScanLinksUnique | publish.py:35 | any tokens meeting the link scanner's contract are its tokens |
| Inline.SubLinks | publish.py:35 | text without `[` is unchanged by the link substitution |
| Inline.LinkBecomesAnchor | publish.py:35 | `[x](u)` becomes `<a href="u">x</a>` with text and URL copied verbatim |
| Inline.CodeAt | publish.py:38 | the code match at the start of a text if there is one, and if none, no closing backtick matches |
| Inline.CodeSplit | publish.py:38 | a code match splits the text into the span's source and the rest; the span holds no backtick |
| Inline.ScanCode | publish.py:38 | reading the tokens back gives the input. At each token the code match function decides it: a literal character only where no span starts, a code token exactly the match found there, non-empty and free of backticks. Without a backtick there is none |
| Inline.ScanCodeUnique | publish.py:38 | any tokens meeting the code scanner's contract are its tokens |
| Inline.SubCode | publish.py:38 | text without a backtick is unchanged by the code substitution |
| Inline.ScanCodeSpan | publish.py:38 | `` `x` `` scans as one code token |
| Inline.CodeBecomesElement | publish.py:38 | `` `x` `` becomes `<code>x</code>` |
| Inline.ScanSkipsEmptyPair | publish.py:38 | two backticks in a row are no match at the first one |
| Inline.EmptyCodeSkipped | publish.py:38 | ``` ``x` ``` keeps the first backtick and turns the rest into `<code>x</code>` |
| Inline.ConvertInline | publish.py:27-38 | text with none of `*`, `_`, `[`, `` ` `` passes through all inline substitutions unchanged |
| Paragraphs.LastNewline | publish.py:41 | the last line break in a range, or none in it |
| Paragraphs.BlankSepAt | publish.py:41 | the greedy `\n\s*\n` at the start of a text is its longest blank prefix; no longer prefix is blank, and none matches when it returns none |
| Paragraphs.FindSep | publish.py:41 | a separator match found lies inside the text after the start position and is at least two characters long |
| Paragraphs.FindSepFirst | publish.py:41 | the match found is the separator at that offset, and no separator starts earlier |
| Paragraphs.SplitBlank | publish.py:41 | `re.split` gives at least one piece |
| Paragraphs.SplitPiecesHaveNoBlankLine | publish.py:41 | no piece of the split holds a blank line |
| Paragraphs.NoBlankLineBefore | publish.py:41 | text before the first separator match holds no blank line |
| Paragraphs.SplitRoundTrip | publish.py:41 | splitting loses nothing: pieces interleaved with the matched separators rebuild the text, with one separator fewer than pieces |
| Paragraphs.SplitUnfold | publish.py:41 | one step of the split: the piece before the first match, the match, and the split of the rest |
| Paragraphs.SplitWithoutBlankLine | publish.py:41 | a text with no blank line is one piece |
| Paragraphs.SeparatorIsBlankLine | publish.py:41 | a separator match is a blank line of the text |
| Paragraphs.RenderBlock | publish.py:44-54 | a piece yields nothing exactly when it is whitespace. Otherwise: the stripped piece when it opens with `<h`, `<ul` or `<ol`, else `<p>` around it with line breaks made spaces and no line break left |
| Paragraphs.ParagraphShape | publish.py:53-54 | the `<p>` element has the stripped piece's characters, line breaks made spaces, between the tags |
| Paragraphs.Processed | publish.py:43-55 | the loop appends at most one block per piece |
| Paragraphs.ProcessedAppend | publish.py:43-55 | blocks come out in source order: processing a concatenation concatenates the results |
| Paragraphs.ProcessedSnoc | publish.py:43-55 | one more piece at the end appends what that piece yields |
| Paragraphs.ProcessedPrefix | publish.py:43-55 | extending the processed prefix by one piece appends that piece's block |
| Paragraphs.ProcessedSingle | publish.py:46-54 | a blank piece yields no block; any other yields exactly its rendered block |
| Paragraphs.ProcessedEmptyIff | publish.py:46-47 | nothing comes out exactly when every piece is whitespace (both directions) |
| Paragraphs.Emit | publish.py:46-54 | one piece yields at most one block, and nothing exactly when it is whitespace |
| Paragraphs.RenderParagraphs | publish.py:41-56 | the paragraph stage turns whitespace-only text into the empty string |
| Paragraphs.SingleParagraph | publish.py:41-56 | stripped text without a blank line or opening markup becomes one `<p>` element with line breaks made spaces |
| Markdown.MarkdownToHtml | publish.py:13-56 | the converter as the code runs it, substitution after substitution and then the loop, returns `Fragment`, the composition of the stage functions proved above |
| Markdown.ProcessPieces | publish.py:43-55 | the loop over the pieces returns exactly the blocks `Processed` specifies, in order |
| Markdown.ProcessPiece | publish.py:44-54 | one iteration appends exactly what `Emit` specifies for that piece |
| Markdown.Substituted | publish.py:18-38 | text without `#`, `*`, `_`, `[`, a backtick or a leading fence reaches the paragraph stage unchanged |
| Markdown.Fragment | publish.py:13-56 | whitespace-only Markdown converts to the empty fragment |
| Markdown.PlainTextIsOneParagraph | publish.py:13-56 | plain text without blank lines or surrounding whitespace converts to one `<p>` element with line breaks made spaces |
| Markdown.NoMarkupStart | publish.py:49 | a piece not starting with `<` is never kept as markup |
| Markdown.TwoLinesJoin | publish.py:41-56 | two lines of letters separated by one line break become `<p>a b</p>` |
| Markdown.LettersAroundNewline | publish.py:41-53 | two lines of letters hold no blank line and have their break replaced by a space |
| Naming.KeepSlugChars | publish.py:187 | deleting the characters outside `[a-z0-9\s-]` never lengthens the text |
| Naming.KeepInClass | publish.py:187 | what is left lies in the class |
| Naming.KeepAppend | publish.py:187 | deletion works per character: the filter of a concatenation is the concatenation of the filters |
| Naming.KeepSlugCharsIdentity | publish.py:187 | characters in the class are all kept, in order |
| Naming.KeepDeletes | publish.py:187 | characters outside the class are all deleted |
| Naming.HyphenateSpaces | publish.py:188 | replacing whitespace runs by hyphens never lengthens the text |
| Naming.HyphenateNoSpace | publish.py:188 | no whitespace is left after `re.sub(r'\s+', '-', …)` |
| Naming.HyphenateIdentity | publish.py:188 | text without whitespace is unchanged |
| Naming.HyphenateAppend | publish.py:188 | a whitespace-free prefix is copied and the rest hyphenated on its own |
| Naming.HyphenateRun | publish.py:188 | a whole whitespace run, however long, becomes one hyphen |
| Naming.RunEndAt | publish.py:188 | the run ends at the first non-whitespace character |
| Naming.SlugStem | publish.py:186-188 | the slug holds only lower-case letters, digits and hyphens |
| Naming.FilenameFromTitle | publish.py:183-189 | the file name ends in `.html`, and what comes before it is the title's slug |
| Naming.LowerAll | publish.py:186 | lower-cased text has no upper-case letter |
| Naming.KeepNoUpper | publish.py:187 | deletion does not bring back upper-case letters |
| Naming.HyphenateStem | publish.py:188 | hyphenating text from the class leaves only slug characters |
| Naming.LowerIdentity | publish.py:186 | text without upper-case letters is unchanged by `lower` |
| Naming.SlugIdempotent | publish.py:183-189 | a slug is its own slug, and gives the same file name as the title it came from |
| Naming.SlugCaseInsensitive | publish.py:186 | titles that differ only in letter case get the same file name |
| Naming.AlphanumericTitle | publish.py:183-189 | a title of letters and digits has its lower-case form as slug |
| Naming.TwoWordTitle | publish.py:183-189 | `A, B!` has slug `a-b`: punctuation is deleted and the space becomes a hyphen |
| Naming.TwoWordKeep | publish.py:187 | deleting from `a, b!` leaves `a b` |
| Naming.TwoWordHyphen | publish.py:188 | the single space between two words becomes one hyphen |
| Naming.TwoWordFilename | publish.py:183-189 | `A, B!` is stored as `a-b.html` |
| Naming.HelloWorld | publish.py:183-189 | `Hello, World!` is stored as `hello-world.html` |
| Naming.LastProperPart | publish.py:179 | the index of the last path component that is neither empty nor `.`: every later component is empty or `.`; none exactly when all components are |
| Naming.BaseName | publish.py:179 | `Path.name`: no `/` and never `.`. It is empty exactly when every component is empty or `.`. Otherwise it is a component after which only empty and `.` components follow |
| Naming.LastDot | publish.py:179 | the last `.` of a name, with none after it, or none at all |
| Naming.Stem | publish.py:179 | `Path.stem`: a prefix of the name. When shorter, it stops at the last dot, which is neither the first nor the last character. A last dot in such a position always cuts the name there |
| Naming.TitleChar | publish.py:181 | `str.title` on a character: letters stay letters and non-letters are unchanged; only case changes |
| Naming.TitleCaseFrom | publish.py:181 | title casing keeps the length |
| Naming.TitleCase | publish.py:181 | title casing keeps the length |
| Naming.TitleCaseFromAt | publish.py:181 | each character is title-cased according to whether the character before it is a letter |
| Naming.TitleCaseAt | publish.py:181 | a letter at the start or after a non-letter is upper case; a letter after a letter is lower case; nothing else changes |
| Naming.TitleCaseSameLetters | publish.py:181 | title casing changes only the case of letters |
| Naming.Words | publish.py:180-181 | hyphens and underscores become spaces, nothing else changes, and none is left |
| Naming.TitleFromFilename | publish.py:177-181 | the title has one character per character of the file's stem, and no hyphen or underscore |
| Naming.DropsDirectoryAndExtension | publish.py:177-181 | `dir/name.ext` gives the title of `name`, whatever the directory and extension, and even when `name` holds dots |
| Naming.StemDropsLastExtension | publish.py:179 | `name.ext` has stem `name` whatever dots `name` holds: only the last extension is dropped |
| Naming.FileParts | publish.py:179 | `name.ext` has its last dot right after `name` and holds no `/` |
| Naming.LastDotIs | publish.py:179 | a dot with no dot after it is the last dot |
| Naming.BaseNameLast | publish.py:179 | a path ending in `/file` has `file` as its name |
| Naming.StemOfFilename | publish.py:177-189 | the stem read back from a generated file name is the slug (for a non-empty slug), and converting it again gives the same file name |
| Naming.EmptySlugFilename | publish.py:177-189 | a title with an empty slug is stored as `.html`, whose stem is `.html` itself, which converts to `html.html`; the round trip is then not stable |
| Naming.EmptySlugName | publish.py:189 | an empty slug gives the file name `.html` |
| Naming.DotHtmlStem | publish.py:179 | the stem of `.html` is `.html` |
| Naming.DotHtmlSlug | publish.py:186-188 | the slug of `.html` is `html` |
| Naming.DotAndLetters | publish.py:187 | the dot is deleted; `html` is kept and has no whitespace |
| Naming.DeletedPrefix | publish.py:187-188 | a prefix that deletion removes entirely leaves the slug of what follows |
| Publish.FirstTitleLine | publish.py:213 | the first line of the form `# ` plus at least one character; no earlier line has that form |
| Publish.WithoutLine | publish.py:217 | the lines without line i: those before it unchanged, those after it shifted down by one |
| Publish.ResolveTitle | publish.py:209-219 | (corrected resolution) explicit title: used as given, text untouched. Else a title line gives the title (never empty), and that line and its break are removed when a break follows. Else the title comes from the file name, text untouched |
| Publish.RemoveLeadingHeading | publish.py:217 | the substitution without MULTILINE: the text is unchanged, or it started with a title line and loses exactly that line and its break |
| Publish.ResolveTitleAsWritten | publish.py:209-219 | title resolution as coded: explicit and file-name cases as above; a found title line gives the title, but the text only loses a title line that opens it |
| Publish.HeadingAfterFirstLineKept | publish.py:213-217 | a title line after the first line: the code takes its title and leaves the line in the text; the corrected resolution removes it and joins its neighbours |
| Publish.LeadingHeadingAgrees | publish.py:213-217 | a title line that opens the text is taken and removed with its break by both resolutions alike |
| Publish.SecondLineHeading | publish.py:213 | the lines of `a\nl\nb` are `a`, `l` and the lines of `b` |
| Publish.FirstLineStays | publish.py:217 | a first line that is not a title line is never removed by the code's substitution |
| Publish.RemovalIsSplice | publish.py:217 | (corrected resolution) the removal is a splice: the original text is the new text with the title line and one break put back at a line start |
| Publish.SpliceAt | publish.py:217 | dropping a non-final line from joined lines removes exactly that line and the break after it |
| Publish.SpliceParts | publish.py:217 | joined lines split around an inner line into front, that line and back |
| Publish.FinalHeadingStays | publish.py:213-217 | a title line at the very end with no break after it gives the title and stays in the text |
| Publish.HeadingInsideFrontMatter | publish.py:213-217 | (corrected resolution) a title line inside front matter gives the title and is removed; the two fences left still form a block that the converter strips |
| Publish.HeadingInsideFrontMatterAsWritten | publish.py:213-217 | as written, a title line inside front matter gives the title and stays in the text; when the title does not end in `---`, the front-matter removal takes it away with the block, so the converted body is the same |
| Publish.TitleEndingInFence | publish.py:18 | a title line ending in `---` inside front matter closes the block early: the real closing fence stays at the start of the text |
| Publish.FrontMatterHeadingLines | publish.py:213 | the lines of a front-matter block holding a title line |
| Publish.TwoFencesUnlines | publish.py:217 | the lines left after removal join back to two fences and the body |
| Publish.FenceBlock | publish.py:18 | two fences in a row are an empty front-matter block and are stripped |
| Publish.EssayPage | publish.py:58-175 | the page opens with `<!DOCTYPE html>` and ends with `</html>` and a line break |
| Publish.PageLayout | publish.py:58-175 | the title sits in the `<title>` element right after the head and again in the `<h1>`; the converted text sits in the content `div`; the length is the sum of the pieces |
| Publish.WritePage | publish.py:221-230 | once the title is chosen, the page is the template filled with the resolved title, the converted resolved text and the default date. The output is the essays directory, `/`, and the title's file name, so it lies in that directory and ends in `.html` |
| Publish.PublishAsWritten | publish.py:209-230 | what `main` produces after reading the file: the page and output path of `WritePage` for the as-written resolution `ResolveTitleAsWritten` |
| Publish.Publish | publish.py:209-230 | the same with the corrected resolution `ResolveTitle`: the page is the template filled with that title and converted text, and the output path lies in the essays directory and ends in `.html` |
| Publish.OutputPath | publish.py:228-230 | a name ending in `.html` joined under a directory stays in it and keeps the ending |

## Left out

- Reading the Markdown file, writing the page, and the messages printed are not modelled. The text read is a parameter of `Publish.PublishAsWritten` and `Publish.Publish`, and the page and path are its results.
- The argument-count check, the file-existence check and the exits are not modelled. An explicit title is modelled as an `Option`.
- The call to `update-essays.sh` is an external program and is not modelled.
- `Path(__file__).parent / 'essays'` depends on where the script is installed. The directory is the parameter `essaysDir`.
- The path join is written `dir + "/" + name`, on POSIX paths.
- The stylesheet between the `<style>` tags is fixed text. It is the parameter `style` of `Publish.EssayPage`; the rest of the template is modelled character for character.
- The date is always the default `"2026"` in `main`. `Publish.EssayPage` still takes it as a parameter.
- Characters are treated as ASCII. `str.lower`, `str.title`, `str.isspace` and `\s` are modelled on ASCII letters and whitespace only; Unicode case mapping and Unicode whitespace are not modelled.
- `Naming.Stem` follows the rule that a dot only counts when it is neither the first nor the last character of the name.
- `Naming.LastProperPart` normalises the path as `PurePosixPath` does for empty and `.` components. It does not interpret `..`.
- `Paragraphs.FindSep` states only where its match lies. That the match is the first one, and that it is the separator at that offset, is `Paragraphs.FindSepFirst`.
- `Paragraphs.SplitBlank` states only that there is a piece. The pieces' content is `Paragraphs.SplitRoundTrip` and `Paragraphs.SplitPiecesHaveNoBlankLine`.
- Publish.Publish: models `main` with the title line removed where it was found, not as the script removes it. What the script writes is `Publish.PublishAsWritten`; the two differ only as the finding below describes.
- `Publish.EssayPage` states only how the page opens and ends. Where the title and content sit is `Publish.PageLayout`.

## Findings

| source | as written | input that shows it | evidently intended | confidence | as-written member | corrected member |
|---|---|---|---|---|---|---|
| publish.py:217 | `re.sub(r'^# .+\n', '', md_content, count=1)` has no MULTILINE flag, so `^` holds only at offset 0. The title line is removed only when it is the first line of the file, yet the search on line 213 finds it on any line | `"Draft\n# My Essay\nText"` gives the title `My Essay`, but the heading stays in the text, and the page shows `<h1>My Essay</h1>` twice (template and content). A file whose front matter is followed by its `# ` heading hits this too; a title line inside the front matter is removed by the front-matter substitution on line 18 anyway (`Publish.HeadingInsideFrontMatterAsWritten`), unless the title ends in `---`, which closes the block early and leaves the real closing fence in the text (`Publish.TitleEndingInFence`) | remove the title line the search found, wherever it is, as the comment on line 216 says | not executed | Publish.ResolveTitleAsWritten, used by Publish.PublishAsWritten, with Publish.HeadingAfterFirstLineKept | Publish.ResolveTitle, used by Publish.Publish |
