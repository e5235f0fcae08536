/**
 * The two naming helpers: `filename_from_title`, which turns an essay title into the
 * name of its HTML file, and `title_from_filename`, which turns the path of a Markdown
 * file into a title.
 *
 * Paths are POSIX paths; case mapping and whitespace are on ASCII.
 */
module Naming {
  import opened Text

  // ---------------------------------------------------------------------------------
  // filename_from_title
  // ---------------------------------------------------------------------------------

  /** A character the class `[a-z0-9\s-]` admits. */
  predicate IsSlugChar(c: char) {
    IsLower(c) || IsDigit(c) || IsSpace(c) || c == '-'
  }

  /** A character of a finished slug: lower-case letter, digit or hyphen. */
  predicate IsStemChar(c: char) {
    IsLower(c) || IsDigit(c) || c == '-'
  }

  predicate AllSlugChars(s: string) {
    forall i :: 0 <= i < |s| ==> IsSlugChar(s[i])
  }

  predicate AllStemChars(s: string) {
    forall i :: 0 <= i < |s| ==> IsStemChar(s[i])
  }

  predicate NoSpace(s: string) {
    forall i :: 0 <= i < |s| ==> !IsSpace(s[i])
  }

  /** `re.sub(r'[^a-z0-9\s-]', '', s)`: every character outside the class is deleted. */
  function KeepSlugChars(s: string): (r: string)
    ensures |r| <= |s|
    decreases |s|
  {
    if s == [] then []
    else if IsSlugChar(s[0]) then [s[0]] + KeepSlugChars(s[1..])
    else KeepSlugChars(s[1..])
  }

  /** What is left lies in the class. */
  lemma {:induction false} KeepInClass(s: string)
    ensures AllSlugChars(KeepSlugChars(s))
    decreases |s|
  {
    if s != [] {
      KeepInClass(s[1..]);
    }
  }

  /** Deletion works character by character: the filter of a concatenation is the
      concatenation of the filters. */
  lemma {:induction false} KeepAppend(s: string, t: string)
    ensures KeepSlugChars(s + t) == KeepSlugChars(s) + KeepSlugChars(t)
    decreases |s|
  {
    if s == [] {
      assert s + t == t;
    } else {
      assert (s + t)[1..] == s[1..] + t;
      KeepAppend(s[1..], t);
    }
  }

  /** Characters in the class are kept, in order. */
  lemma {:induction false} KeepSlugCharsIdentity(s: string)
    requires AllSlugChars(s)
    ensures KeepSlugChars(s) == s
    decreases |s|
  {
    if s != [] {
      KeepSlugCharsIdentity(s[1..]);
    }
  }

  /** Characters outside the class are deleted. */
  lemma KeepDeletes(s: string)
    requires forall i :: 0 <= i < |s| ==> !IsSlugChar(s[i])
    ensures KeepSlugChars(s) == []
    decreases |s|
  {
  }

  /** `re.sub(r'\s+', '-', s)`: each maximal whitespace run becomes one hyphen. */
  function HyphenateSpaces(s: string): (r: string)
    ensures |r| <= |s|
    decreases |s|
  {
    if s == [] then []
    else if IsSpace(s[0]) then "-" + HyphenateSpaces(s[SpaceRunEnd(s, 1)..])
    else [s[0]] + HyphenateSpaces(s[1..])
  }

  /** No whitespace is left. */
  lemma {:induction false} HyphenateNoSpace(s: string)
    ensures NoSpace(HyphenateSpaces(s))
    decreases |s|
  {
    if s != [] {
      if IsSpace(s[0]) {
        HyphenateNoSpace(s[SpaceRunEnd(s, 1)..]);
      } else {
        HyphenateNoSpace(s[1..]);
      }
    }
  }

  /** Text without whitespace passes through unchanged. */
  lemma {:induction false} HyphenateIdentity(s: string)
    requires NoSpace(s)
    ensures HyphenateSpaces(s) == s
    decreases |s|
  {
    if s != [] {
      HyphenateIdentity(s[1..]);
    }
  }

  /** A prefix without whitespace is copied and the rest hyphenated on its own. */
  lemma {:induction false} HyphenateAppend(s: string, t: string)
    requires NoSpace(s)
    ensures HyphenateSpaces(s + t) == s + HyphenateSpaces(t)
    decreases |s|
  {
    if s == [] {
      assert s + t == t;
    } else {
      var st := s + t;
      assert st[0] == s[0] && st[1..] == s[1..] + t;
      HyphenateAppend(s[1..], t);
      assert st == [s[0]] + (s[1..] + t);
      assert s == [s[0]] + s[1..];
    }
  }

  /** A whole whitespace run, however long, becomes a single hyphen. */
  lemma HyphenateRun(w: string, t: string)
    requires w != [] && AllSpace(w)
    requires t == [] || !IsSpace(t[0])
    ensures HyphenateSpaces(w + t) == "-" + HyphenateSpaces(t)
  {
    var s := w + t;
    assert SpaceRunEnd(s, 1) == |w| by {
      RunEndAt(s, |w|);
    }
    assert s[|w|..] == t;
  }

  lemma RunEndAt(s: string, k: nat)
    requires 1 <= k <= |s|
    requires forall i :: 1 <= i < k ==> IsSpace(s[i])
    requires k == |s| || !IsSpace(s[k])
    ensures SpaceRunEnd(s, 1) == k
  {
  }

  /** The file name without `.html`: it holds only lower-case letters, digits and
      hyphens, so no upper case, no punctuation and no whitespace survive. */
  function SlugStem(title: string): (r: string)
    ensures AllStemChars(r)
  {
    var k := KeepSlugChars(Lower(title));
    LowerAll(title);
    KeepNoUpper(Lower(title));
    KeepInClass(Lower(title));
    HyphenateStem(k);
    HyphenateSpaces(k)
  }

  /** `filename_from_title`: the stem of the title followed by `.html`. */
  function FilenameFromTitle(title: string): (r: string)
    ensures EndsWith(r, ".html")
    ensures r[..|r| - 5] == SlugStem(title)
  {
    var stem := SlugStem(title);
    var r := stem + ".html";
    assert r[|r| - 5..] == ".html";
    assert r[..|r| - 5] == stem;
    r
  }

  lemma LowerAll(s: string)
    ensures forall i :: 0 <= i < |s| ==> !IsUpper(Lower(s)[i])
  {
  }

  lemma {:induction false} KeepNoUpper(s: string)
    requires forall i :: 0 <= i < |s| ==> !IsUpper(s[i])
    ensures forall i :: 0 <= i < |KeepSlugChars(s)| ==> !IsUpper(KeepSlugChars(s)[i])
    decreases |s|
  {
    if s != [] {
      KeepNoUpper(s[1..]);
    }
  }

  lemma {:induction false} HyphenateStem(s: string)
    requires AllSlugChars(s)
    ensures AllStemChars(HyphenateSpaces(s))
    decreases |s|
  {
    if s != [] {
      if IsSpace(s[0]) {
        HyphenateStem(s[SpaceRunEnd(s, 1)..]);
      } else {
        HyphenateStem(s[1..]);
      }
    }
  }

  lemma LowerIdentity(s: string)
    requires forall i :: 0 <= i < |s| ==> !IsUpper(s[i])
    ensures Lower(s) == s
  {
  }

  /** A slug is its own slug: running the conversion on the stem it produced gives the
      same stem and the same file name. */
  lemma SlugIdempotent(title: string)
    ensures SlugStem(SlugStem(title)) == SlugStem(title)
    ensures FilenameFromTitle(SlugStem(title)) == FilenameFromTitle(title)
  {
    var s := SlugStem(title);
    LowerIdentity(s);
    KeepSlugCharsIdentity(s);
    HyphenateIdentity(s);
  }

  /** Titles that differ only in the case of their letters share a file name. */
  lemma SlugCaseInsensitive(t: string, u: string)
    requires Lower(t) == Lower(u)
    ensures FilenameFromTitle(t) == FilenameFromTitle(u)
  {
  }

  /** A title of letters and digits gives its lower-case form as the stem. */
  lemma AlphanumericTitle(title: string)
    requires forall i :: 0 <= i < |title| ==> IsLetter(title[i]) || IsDigit(title[i])
    ensures SlugStem(title) == Lower(title)
  {
    var l := Lower(title);
    assert AllSlugChars(l);
    KeepSlugCharsIdentity(l);
    HyphenateIdentity(l);
  }

  /** Punctuation is deleted and the space between words becomes a hyphen: two words
      written `A, B!` give `a-b.html`. */
  lemma TwoWordTitle(a: string, b: string)
    requires forall i :: 0 <= i < |a| ==> IsLetter(a[i])
    requires forall i :: 0 <= i < |b| ==> IsLetter(b[i])
    ensures SlugStem(a + ", " + b + "!") == Lower(a) + "-" + Lower(b)
  {
    var la, lb := Lower(a), Lower(b);
    assert Lower(a + ", " + b + "!") == la + ", " + lb + "!";
    assert AllSlugChars(la) && AllSlugChars(lb);
    KeepSlugCharsIdentity(la);
    KeepSlugCharsIdentity(lb);
    TwoWordKeep(la, lb);
    assert NoSpace(la) && NoSpace(lb);
    assert lb == [] || !IsSpace(lb[0]);
    HyphenateAppend(la, " " + lb);
    HyphenateIdentity(lb);
    TwoWordHyphen(la, lb);
  }

  lemma TwoWordKeep(la: string, lb: string)
    requires KeepSlugChars(la) == la && KeepSlugChars(lb) == lb
    ensures KeepSlugChars(la + ", " + lb + "!") == la + " " + lb
  {
    TwoWordKeepWith(la, lb, ", ", "!");
  }

  lemma TwoWordKeepWith(la: string, lb: string, comma: string, bang: string)
    requires KeepSlugChars(la) == la && KeepSlugChars(lb) == lb
    requires comma == ", " && bang == "!"
    ensures KeepSlugChars(la + comma + lb + bang) == la + " " + lb
  {
    KeepPunctuation(comma, bang);
    KeepAppend(la + comma + lb, bang);
    KeepAppend(la + comma, lb);
    KeepAppend(la, comma);
    AppendEmpty(la + " " + lb);
  }

  lemma KeepPunctuation(comma: string, bang: string)
    requires comma == ", " && bang == "!"
    ensures KeepSlugChars(comma) == " " && KeepSlugChars(bang) == []
  {
    assert comma[1..] == " ";
    assert " "[1..] == [];
    assert bang[1..] == [];
  }

  lemma AppendEmpty(x: string)
    ensures x + [] == x
  {
  }

  lemma TwoWordHyphen(la: string, lb: string)
    requires lb == [] || !IsSpace(lb[0])
    requires HyphenateSpaces(la + (" " + lb)) == la + HyphenateSpaces(" " + lb)
    requires HyphenateSpaces(lb) == lb
    ensures HyphenateSpaces(la + " " + lb) == la + "-" + lb
  {
    HyphenateRun(" ", lb);
    Assoc(la, " ", lb);
    Assoc(la, "-", lb);
  }

  /** File names for two-word titles: `A, B!` is stored as `a-b.html`. */
  lemma TwoWordFilename(a: string, b: string)
    requires forall i :: 0 <= i < |a| ==> IsLetter(a[i])
    requires forall i :: 0 <= i < |b| ==> IsLetter(b[i])
    ensures FilenameFromTitle(a + ", " + b + "!") == Lower(a) + "-" + Lower(b) + ".html"
  {
    TwoWordTitle(a, b);
  }

  /** The worked example `Hello, World!`. */
  lemma HelloWorld(title: string)
    requires title == "Hello, World!"
    ensures FilenameFromTitle(title) == "hello-world.html"
  {
    var a, b := "Hello", "World";
    assert title == a + ", " + b + "!";
    TwoWordFilename(a, b);
    assert Lower(a) == "hello" && Lower(b) == "world";
  }

  // ---------------------------------------------------------------------------------
  // title_from_filename
  // ---------------------------------------------------------------------------------

  /** A path component that normalisation drops: empty (from `//` or a leading or
      trailing `/`) or `.`. */
  predicate Dropped(part: string) {
    part == "" || part == "."
  }

  predicate AllDropped(parts: seq<string>) {
    forall i :: 0 <= i < |parts| ==> Dropped(parts[i])
  }

  /** The index of the last path component that normalisation keeps, as
      `PurePosixPath.name` finds it; `None` when every component is dropped. */
  function LastProperPart(parts: seq<string>): (r: Option<nat>)
    ensures r.Some? ==> (r.value < |parts| && !Dropped(parts[r.value])
                         && forall i :: r.value < i < |parts| ==> Dropped(parts[i]))
    ensures r.None? ==> AllDropped(parts)
    decreases |parts|
  {
    if parts == [] then None
    else if !Dropped(parts[|parts| - 1]) then Some(|parts| - 1)
    else LastProperPart(parts[..|parts| - 1])
  }

  /** `Path(p).name`: the last `/`-separated component that is neither empty nor `.`,
      or `""` when the path has none. */
  function BaseName(p: string): (r: string)
    ensures '/' !in r && r != "."
    ensures r == "" <==> AllDropped(SplitOn(p, '/'))
    ensures var parts := SplitOn(p, '/');
      r != "" ==> exists k :: 0 <= k < |parts| && parts[k] == r
                              && forall i :: k < i < |parts| ==> Dropped(parts[i])
  {
    var parts := SplitOn(p, '/');
    match LastProperPart(parts)
    case Some(k) =>
      assert parts[k] != "" && !AllDropped(parts);
      parts[k]
    case None => ""
  }

  /** The position of the last `.` in `s`, or `None`. */
  function LastDot(s: string): (r: Option<nat>)
    ensures r.Some? ==> (r.value < |s| && s[r.value] == '.'
                         && forall i :: r.value < i < |s| ==> s[i] != '.')
    ensures r.None? ==> forall i :: 0 <= i < |s| ==> s[i] != '.'
    decreases |s|
  {
    if s == [] then None
    else if s[|s| - 1] == '.' then Some(|s| - 1)
    else LastDot(s[..|s| - 1])
  }

  /** `PurePosixPath(name).stem` on a name: the part before the last dot, when that dot
      is neither the first nor the last character; the whole name otherwise. */
  function Stem(name: string): (r: string)
    ensures |r| <= |name| && r == name[..|r|]
    ensures |r| < |name| ==> (0 < |r| < |name| - 1 && name[|r|] == '.'
                              && forall i :: |r| < i < |name| ==> name[i] != '.')
    ensures forall k ::
      (0 < k < |name| - 1 && name[k] == '.' && forall i :: k < i < |name| ==> name[i] != '.')
      ==> r == name[..k]
  {
    match LastDot(name)
    case Some(i) => if 0 < i < |name| - 1 then name[..i] else name
    case None => name
  }

  /** What `str.title` makes of one character, given whether the character before it
      was a letter. */
  function TitleChar(c: char, prevCased: bool): (r: char)
    ensures IsLetter(r) <==> IsLetter(c)
    ensures !IsLetter(c) ==> r == c
    ensures ToLower(r) == ToLower(c)
  {
    if IsLetter(c) then (if prevCased then ToLower(c) else ToUpper(c)) else c
  }

  /** `str.title` continued after a character that was (`prevCased`) or was not a
      letter. */
  function TitleCaseFrom(s: string, prevCased: bool): (r: string)
    ensures |r| == |s|
    decreases |s|
  {
    if s == [] then [] else [TitleChar(s[0], prevCased)] + TitleCaseFrom(s[1..], IsLetter(s[0]))
  }

  /** `str.title`. */
  function TitleCase(s: string): (r: string)
    ensures |r| == |s|
  {
    TitleCaseFrom(s, false)
  }

  lemma {:induction false} TitleCaseFromAt(s: string, prevCased: bool)
    ensures forall i :: 0 <= i < |s| ==>
      TitleCaseFrom(s, prevCased)[i] == TitleChar(s[i], if i == 0 then prevCased else IsLetter(s[i - 1]))
    decreases |s|
  {
    if s != [] {
      var rest := s[1..];
      TitleCaseFromAt(rest, IsLetter(s[0]));
      var r := TitleCaseFrom(s, prevCased);
      forall i | 1 <= i < |s|
        ensures r[i] == TitleChar(s[i], IsLetter(s[i - 1]))
      {
        assert r[i] == TitleCaseFrom(rest, IsLetter(s[0]))[i - 1];
        assert rest[i - 1] == s[i];
        if i > 1 {
          assert rest[i - 2] == s[i - 1];
        }
      }
    }
  }

  /** Title case character by character: a letter at the start or after a non-letter
      is upper case, a letter after a letter is lower case, and nothing else changes. */
  lemma TitleCaseAt(s: string)
    ensures forall i :: 0 <= i < |s| && !IsLetter(s[i]) ==> TitleCase(s)[i] == s[i]
    ensures forall i :: 0 < i < |s| && IsLetter(s[i]) && IsLetter(s[i - 1]) ==>
      TitleCase(s)[i] == ToLower(s[i])
    ensures forall i :: 0 <= i < |s| && IsLetter(s[i]) && (i == 0 || !IsLetter(s[i - 1])) ==>
      TitleCase(s)[i] == ToUpper(s[i])
  {
    TitleCaseFromAt(s, false);
    forall i | 0 <= i < |s| && !IsLetter(s[i])
      ensures TitleCase(s)[i] == s[i]
    {
      var b := i > 0 && IsLetter(s[i - 1]);
      assert TitleCase(s)[i] == TitleChar(s[i], b);
      assert TitleChar(s[i], b) == s[i];
    }
  }

  /** Title casing changes only the case of letters. */
  lemma TitleCaseSameLetters(s: string)
    ensures Lower(TitleCase(s)) == Lower(s)
  {
    TitleCaseFromAt(s, false);
    var t := TitleCase(s);
    forall i | 0 <= i < |s|
      ensures Lower(t)[i] == Lower(s)[i]
    {
      assert t[i] == TitleChar(s[i], if i == 0 then false else IsLetter(s[i - 1]));
    }
  }

  /** The stem with hyphens and underscores made spaces. */
  function Words(stem: string): (r: string)
    ensures |r| == |stem|
    ensures forall i :: 0 <= i < |r| ==> r[i] != '-' && r[i] != '_'
    ensures forall i :: 0 <= i < |r| ==> r[i] == (if stem[i] == '-' || stem[i] == '_' then ' ' else stem[i])
  {
    ReplaceChar(ReplaceChar(stem, '-', ' '), '_', ' ')
  }

  /** `title_from_filename`: the title has one character per character of the file's
      stem, and no hyphen or underscore. */
  function TitleFromFilename(filename: string): (r: string)
    ensures |r| == |Stem(BaseName(filename))|
    ensures forall i :: 0 <= i < |r| ==> r[i] != '-' && r[i] != '_'
  {
    var w := Words(Stem(BaseName(filename)));
    TitleCaseFromAt(w, false);
    var r := TitleCase(w);
    forall i | 0 <= i < |r|
      ensures r[i] != '-' && r[i] != '_'
    {
      var d := TitleChar(w[i], if i == 0 then false else IsLetter(w[i - 1]));
      assert r[i] == d;
      assert w[i] != '-' && w[i] != '_';
    }
    r
  }

  /** The directory and the last extension are dropped: `dir/name.ext` gives the title
      of `name`, whatever the directory. */
  lemma DropsDirectoryAndExtension(dir: string, name: string, ext: string)
    requires name != [] && forall i :: 0 <= i < |name| ==> name[i] != '/'
    requires ext != [] && forall i :: 0 <= i < |ext| ==> ext[i] != '/' && ext[i] != '.'
    ensures TitleFromFilename(dir + "/" + name + "." + ext) == TitleCase(Words(name))
  {
    var file := name + "." + ext;
    assert dir + "/" + name + "." + ext == dir + "/" + file;
    FileParts(name, ext);
    BaseNameLast(dir, file);
    LastDotIs(file, |name|);
    assert file[..|name|] == name;
  }

  lemma FileParts(name: string, ext: string)
    requires name != [] && forall i :: 0 <= i < |name| ==> name[i] != '/'
    requires ext != [] && forall i :: 0 <= i < |ext| ==> ext[i] != '/' && ext[i] != '.'
    ensures var file := name + "." + ext;
      file[|name|] == '.' && |name| < |file| - 1
      && (forall i :: |name| < i < |file| ==> file[i] != '.')
      && (forall i :: 0 <= i < |file| ==> file[i] != '/')
  {
  }

  /** The dot at `k` with no dot after it is the last dot. */
  lemma {:induction false} LastDotIs(s: string, k: nat)
    requires k < |s| && s[k] == '.'
    requires forall i :: k < i < |s| ==> s[i] != '.'
    ensures LastDot(s) == Some(k)
    decreases |s|
  {
    if k < |s| - 1 {
      LastDotIs(s[..|s| - 1], k);
    }
  }

  /** The stem drops exactly the last extension: `name.ext` has stem `name`, whatever
      dots `name` itself holds. */
  lemma StemDropsLastExtension(name: string, ext: string)
    requires name != []
    requires ext != [] && forall i :: 0 <= i < |ext| ==> ext[i] != '.'
    ensures Stem(name + "." + ext) == name
  {
    var file := name + "." + ext;
    assert file[|name|] == '.';
    assert forall i :: |name| < i < |file| ==> file[i] == ext[i - |name| - 1];
    LastDotIs(file, |name|);
    assert file[..|name|] == name;
  }

  /** A path ending `/file`, with `file` a proper name, has `file` as its name. */
  lemma BaseNameLast(dir: string, file: string)
    requires file != [] && file != "."
    requires forall i :: 0 <= i < |file| ==> file[i] != '/'
    ensures BaseName(dir + "/" + file) == file
  {
    SplitOnSnoc(dir, '/', file);
  }

  /** The stem `Path.stem` reads back from a generated file name is the slug, when the
      slug is not empty; converting that stem again gives the same file name. */
  lemma StemOfFilename(title: string)
    requires SlugStem(title) != []
    ensures Stem(FilenameFromTitle(title)) == SlugStem(title)
    ensures FilenameFromTitle(Stem(FilenameFromTitle(title))) == FilenameFromTitle(title)
  {
    var stem := SlugStem(title);
    var file := FilenameFromTitle(title);
    assert file == stem + ".html";
    assert file[|stem|] == '.';
    assert forall i :: |stem| < i < |file| ==> file[i] != '.';
    LastDotIs(file, |stem|);
    assert file[..|stem|] == stem;
    SlugIdempotent(title);
  }

  /** A title with nothing left after deletion is stored as `.html`, which `Path.stem`
      reads back whole: the round trip through the stem is then not stable. */
  lemma EmptySlugFilename(title: string, t: string)
    requires SlugStem(title) == [] && t == ".html"
    ensures FilenameFromTitle(title) == t
    ensures Stem(t) == t
    ensures FilenameFromTitle(t) == "html.html"
  {
    EmptySlugName(title, t);
    DotHtmlStem(t);
    DotHtmlSlug(t);
  }

  lemma EmptySlugName(title: string, t: string)
    requires SlugStem(title) == [] && t == ".html"
    ensures FilenameFromTitle(title) == t
  {
    assert [] + t == t;
  }

  lemma DotHtmlStem(t: string)
    requires t == ".html"
    ensures Stem(t) == t
  {
    LastDotIs(t, 0);
  }

  lemma DotHtmlSlug(t: string)
    requires t == ".html"
    ensures SlugStem(t) == "html"
  {
    var dot, h := ".", "html";
    assert t == dot + h;
    LowerIdentity(t);
    DotAndLetters(dot, h);
    DeletedPrefix(dot, h);
  }

  lemma DotAndLetters(dot: string, h: string)
    requires dot == "." && h == "html"
    ensures KeepSlugChars(dot) == [] && AllSlugChars(h) && NoSpace(h)
  {
    KeepDeletes(dot);
  }

  /** A prefix the slug deletes entirely leaves the slug of what follows. */
  lemma DeletedPrefix(p: string, h: string)
    requires KeepSlugChars(p) == [] && AllSlugChars(h) && NoSpace(h)
    ensures HyphenateSpaces(KeepSlugChars(p + h)) == h
  {
    KeepAppend(p, h);
    KeepSlugCharsIdentity(h);
    assert KeepSlugChars(p + h) == h;
    HyphenateIdentity(h);
  }
}
