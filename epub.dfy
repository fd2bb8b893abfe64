/**
 * The text side of the e-book builder (src/epub.rs): the metadata read
 * from the console, the chapter title taken from a file name, the XHTML
 * page made from a chapter file, and the part of `epub_build` that picks
 * the `.md` files, orders them and names the pages. The console, the
 * directory listing, the file contents and the natural-order comparison
 * come in as parameters.
 */
module Epub {
  import opened Results
  import opened Text

  // ---------------------------------------------------------------------
  // Metadata (lines 9-65)
  // ---------------------------------------------------------------------

  datatype Metadata = Metadata(title: string, author: string, imageLink: string, folderPath: string)

  /** `EpubMetadata::default`: no title or author, the cover `cover.png`, the folder `./download`. */
  const DefaultMetadata := Metadata("", "", "cover.png", "./download")

  /** `read_input`, given the line the console returned: the line without surrounding whitespace. */
  function ReadInput(line: string): (r: string)
    ensures r != [] ==> !IsWhitespace(r[0]) && !IsWhitespace(r[|r| - 1])
    ensures r == [] <==> forall k :: 0 <= k < |line| ==> IsWhitespace(line[k])
  {
    TrimByEmpty(line, IsWhitespace);
    Trim(line)
  }

  /** `read_input_with_default`, given the line the console returned. */
  function ReadInputWithDefault(line: string, default: string): (r: string)
    ensures (forall k :: 0 <= k < |line| ==> IsWhitespace(line[k])) ==> r == default
    ensures (exists k :: 0 <= k < |line| && !IsWhitespace(line[k])) ==> r == ReadInput(line) && r != []
  {
    var input := ReadInput(line);
    if input == [] then default else input
  }

  /** A non-empty answer is kept as typed, so reading it a second time gives the same value. */
  lemma ReadInputWithDefaultStable(line: string, default: string)
    requires Trim(default) == default
    ensures var r := ReadInputWithDefault(line, default);
      ReadInputWithDefault(r, default) == r
  {
    var r := ReadInputWithDefault(line, default);
    TrimByIdempotent(line, IsWhitespace);
    assert Trim(r) == r;
  }

  /**
   * `EpubMetadata::read_from_console`, given the four lines typed: title and
   * author trimmed, the image link and the folder falling back to the
   * defaults when left blank.
   */
  function ReadFromConsole(titleLine: string, authorLine: string, imageLine: string, folderLine: string): (m: Metadata)
    ensures m.title == ReadInput(titleLine) && m.author == ReadInput(authorLine)
    ensures ReadInput(imageLine) == [] ==> m.imageLink == "cover.png"
    ensures ReadInput(imageLine) != [] ==> m.imageLink == ReadInput(imageLine)
    ensures ReadInput(folderLine) == [] ==> m.folderPath == "./download"
    ensures ReadInput(folderLine) != [] ==> m.folderPath == ReadInput(folderLine)
  {
    DefaultMetadata.(
      title := ReadInput(titleLine),
      author := ReadInput(authorLine),
      imageLink := ReadInputWithDefault(imageLine, DefaultMetadata.imageLink),
      folderPath := ReadInputWithDefault(folderLine, DefaultMetadata.folderPath))
  }

  // ---------------------------------------------------------------------
  // File names (`Path::file_stem`, `Path::extension`)
  // ---------------------------------------------------------------------

  /** The position of the last `.` in `name`, if any. */
  function LastDot(name: string): (r: Option<nat>)
    ensures r.None? <==> '.' !in name
    ensures r.Some? ==> r.value < |name| && name[r.value] == '.' && '.' !in name[r.value + 1..]
    ensures r.Some? ==> forall j :: r.value < j < |name| ==> name[j] != '.'
  {
    if name == [] then None
    else if name[|name| - 1] == '.' then Some(|name| - 1)
    else
      var r := LastDot(name[..|name| - 1]);
      assert name == name[..|name| - 1] + [name[|name| - 1]];
      if r.Some? then
        assert name[r.value + 1..] == name[..|name| - 1][r.value + 1..] + [name[|name| - 1]];
        r
      else r
  }

  /**
   * Splits a file name at its last dot as `Path` does: the name `..`, a name
   * without a dot and a name whose only dot is its first character have no
   * extension and are all stem.
   */
  function SplitAtDot(name: string): (r: (string, Option<string>))
    ensures r.1.None? ==> r.0 == name
    ensures r.1.Some? ==> name == r.0 + "." + r.1.value && r.0 != [] && '.' !in r.1.value
  {
    if name == ".." then (name, None)
    else match LastDot(name)
      case None => (name, None)
      case Some(k) =>
        if k == 0 then (name, None)
        else
          assert name == name[..k] + "." + name[k + 1..];
          (name[..k], Some(name[k + 1..]))
  }

  function FileStem(name: string): string {
    SplitAtDot(name).0
  }

  function Extension(name: string): Option<string> {
    SplitAtDot(name).1
  }

  /** A name with an extension is its stem, a dot and the extension; the extension holds no dot. */
  lemma StemAndExtension(name: string)
    ensures Extension(name).Some? ==> name == FileStem(name) + "." + Extension(name).value
    ensures Extension(name).Some? ==> '.' !in Extension(name).value && FileStem(name) != []
    ensures Extension(name).None? ==> FileStem(name) == name
  {
  }

  /** Appending `.ext` to a non-empty stem gives back that stem and that extension. */
  lemma SplitJoin(stem: string, ext: string)
    requires stem != [] && '.' !in ext
    requires stem + "." + ext != ".."
    ensures Extension(stem + "." + ext) == Some(ext)
    ensures FileStem(stem + "." + ext) == stem
  {
    var name := stem + "." + ext;
    assert name[|stem|] == '.';
    assert name[|stem| + 1..] == ext;
    forall j | |stem| < j < |name|
      ensures name[j] != '.'
    {
      assert name[j] == ext[j - |stem| - 1];
    }
    var d := LastDot(name);
    assert d.Some? && d.value == |stem|;
  }

  // ---------------------------------------------------------------------
  // Chapter title (lines 98-116)
  // ---------------------------------------------------------------------

  /** The stem used when a path has none, or one that is not valid UTF-8. */
  const UnknownChapter := "Chương không rõ"

  /** The word after which a colon is inserted. */
  const ChapterWord := "chương"

  function ReplaceUnderscores(s: string): (r: string)
    ensures |r| == |s| && '_' !in r
    ensures '_' !in s ==> r == s
    ensures forall k :: 0 <= k < |s| && s[k] != '_' ==> r[k] == s[k]
    ensures forall k :: 0 <= k < |s| && s[k] == '_' ==> r[k] == ':'
  {
    seq(|s|, k requires 0 <= k < |s| => if s[k] == '_' then ':' else s[k])
  }

  function AsciiLower(c: char): char {
    if 'A' <= c <= 'Z' then (c as int + 32) as char else c
  }

  /** `str::eq_ignore_ascii_case`: equal once ASCII letters are folded; other characters must match exactly. */
  predicate EqIgnoreAsciiCase(a: string, b: string) {
    |a| == |b| && forall k :: 0 <= k < |a| ==> AsciiLower(a[k]) == AsciiLower(b[k])
  }

  /** Lines 108-113: a colon right after a leading word that is "chương" up to ASCII case. */
  function MarkChapterWord(t: string): (r: string)
    ensures '_' !in t ==> '_' !in r
  {
    match Find(t, ' ')
    case None => t
    case Some(k) => if EqIgnoreAsciiCase(t[..k], ChapterWord) then t[..k] + ":" + t[k..] else t
  }

  /** `extract_chapter_title`, given the file stem if there is one in UTF-8. */
  function ExtractChapterTitle(stem: Option<string>): (r: string)
    ensures '_' !in r
    ensures r != [] ==> !IsWhitespace(r[0]) && !IsWhitespace(r[|r| - 1])
  {
    var marked := MarkChapterWord(ReplaceUnderscores(if stem.Some? then stem.value else UnknownChapter));
    TrimByNotIn(marked, IsComma, '_');
    TrimByNotIn(TrimBy(marked, IsComma), IsWhitespace, '_');
    Trim(TrimBy(marked, IsComma))
  }

  /**
   * When the text before the first space is "chương" up to ASCII case, a
   * colon is inserted right after it, and nothing else changes.
   */
  lemma ColonAfterChapterWord(t: string, k: nat)
    requires k < |t| && t[k] == ' ' && ' ' !in t[..k]
    requires EqIgnoreAsciiCase(t[..k], ChapterWord)
    ensures MarkChapterWord(t) == t[..k] + ":" + t[k..]
    ensures var m := MarkChapterWord(t);
      && |m| == |t| + 1
      && m[..k] == t[..k]
      && m[k] == ':'
      && m[k + 1..] == t[k..]
  {
    forall j | 0 <= j < k
      ensures t[j] != ' '
    {
      assert t[j] == t[..k][j];
    }
    var f := Find(t, ' ');
    assert f.Some? && f.value == k;
  }

  /** Without a space, or with another first word, the text is left as it is. */
  lemma NoColonOtherwise(t: string)
    requires ' ' !in t || !EqIgnoreAsciiCase(t[..Find(t, ' ').value], ChapterWord)
    ensures MarkChapterWord(t) == t
  {
  }

  /** A path without a usable stem gets the fallback title, and the fallback is itself marked. */
  lemma UnknownChapterTitle()
    ensures ExtractChapterTitle(None) == "Chương: không rõ"
  {
    var m := "Chương: không rõ";
    UnknownChapterMarked();
    assert m[0] == 'C' && m[|m| - 1] == 'õ';
    assert !IsWhitespace('C') && !IsWhitespace('õ');
    EndsUntrimmed(m);
  }

  /** A text whose first and last characters are neither a comma nor whitespace is left alone by both trims of the title. */
  lemma EndsUntrimmed(m: string)
    requires m != [] && !IsComma(m[0]) && !IsComma(m[|m| - 1])
    requires !IsWhitespace(m[0]) && !IsWhitespace(m[|m| - 1])
    ensures TrimBy(m, IsComma) == m && Trim(m) == m
  {
    TrimByUnchanged(m, IsComma);
    TrimByUnchanged(m, IsWhitespace);
  }

  lemma UnknownChapterMarked()
    ensures MarkChapterWord(ReplaceUnderscores(UnknownChapter)) == "Chương: không rõ"
  {
    var t := UnknownChapter;
    assert ReplaceUnderscores(t) == t;
    assert t[6] == ' ' && t[..6] == "Chương" && t[6..] == " không rõ";
    assert EqIgnoreAsciiCase(t[..6], ChapterWord);
    ColonAfterChapterWord(t, 6);
    ColonLiteral();
  }

  lemma ColonLiteral()
    ensures "Chương" + ":" + " không rõ" == "Chương: không rõ"
  {
  }

  // ---------------------------------------------------------------------
  // The XHTML page of a chapter (lines 72-96)
  // ---------------------------------------------------------------------

  /** The fixed text of the page before the title. */
  const HeaderStart :=
    "<?xml version='1.0' encoding='utf-8'?>\n"
    + "<html xmlns=\"http://www.w3.org/1999/xhtml\" xmlns:epub=\"http://www.idpf.org/2007/ops\">\n"
    + "  <head>\n"
    + "    <title>"

  /** The fixed text of the page between the title and the paragraphs. */
  const HeaderEnd :=
    "</title>\n"
    + "    <link rel=\"stylesheet\" type=\"text/css\" href=\"style.css\"/>\n"
    + "    <meta http-equiv=\"Content-Type\" content=\"text/html; charset=utf-8\"/>\n"
    + "  </head>\n"
    + "  <body>\n"

  /** The text before the paragraphs, with the chapter title in `<title>`. */
  function Header(title: string): string {
    HeaderStart + title + HeaderEnd
  }

  const Footer := "</body></html>"

  /** `<p>`, the text, `</p>` and a line break. */
  function Para(text: string): string {
    "<p>" + text + "</p>\n"
  }

  /** The text of a paragraph: not empty and without surrounding whitespace. */
  predicate IsParagraphText(p: string) {
    p != [] && Trim(p) == p
  }

  /** What a line contributes: its trimmed text, unless that is empty. */
  function Kept(line: string): (ps: seq<string>)
    ensures |ps| <= 1
  {
    if Trim(line) == [] then [] else [Trim(line)]
  }

  /** What one line of the chapter file adds: nothing when it is blank, else its trimmed text as a paragraph. */
  function Paragraph(line: string): string {
    if Trim(line) == [] then [] else Para(Trim(line))
  }

  /** The paragraphs of the given lines, in their order, as the loop of lines 90-92 appends them. */
  function Body(lines: seq<string>): string {
    if lines == [] then [] else Body(lines[..|lines| - 1]) + Paragraph(lines[|lines| - 1])
  }

  /** The page `markdown_to_html` returns for a chapter file with the given content. */
  function Page(title: string, content: string): string {
    Header(title) + Body(Lines(content)) + Footer
  }

  /** `markdown_to_html` once the file has been read: the header, one paragraph per non-blank line, the footer. */
  method MarkdownToHtml(title: string, content: string) returns (html: string)
    ensures html == Page(title, content)
  {
    html := Header(title);
    html := AppendParagraphs(html, Lines(content));
    html := html + Footer;
  }

  /** The loop of lines 90-92: one paragraph per non-blank line, appended to the page so far. */
  method AppendParagraphs(start: string, lines: seq<string>) returns (html: string)
    ensures html == start + Body(lines)
  {
    html := start;
    var i := 0;
    while i < |lines|
      invariant 0 <= i <= |lines|
      invariant html == start + Body(lines[..i])
    {
      ghost var before := html;
      var line := Trim(lines[i]);
      if line != [] {
        html := html + Para(line);
        BodyExtend(start, lines, i, before, html);
      } else {
        BodyExtendBlank(start, lines, i, html);
      }
      i := i + 1;
    }
    assert lines[..i] == lines;
  }

  /** Appending the paragraph of line `i` to a page holding the body of the first `i` lines extends that body by one line. */
  lemma BodyExtend(header: string, lines: seq<string>, i: nat, before: string, after: string)
    requires i < |lines|
    requires before == header + Body(lines[..i])
    requires after == before + Paragraph(lines[i])
    ensures after == header + Body(lines[..i + 1])
  {
    BodyStep(lines, i);
    AppendAssociative(header, Body(lines[..i]), Paragraph(lines[i]));
  }

  /** A blank line adds nothing to the body. */
  lemma BodyExtendBlank(header: string, lines: seq<string>, i: nat, html: string)
    requires i < |lines| && Trim(lines[i]) == []
    requires html == header + Body(lines[..i])
    ensures html == header + Body(lines[..i + 1])
  {
    BodyExtend(header, lines, i, html, html + Paragraph(lines[i]));
    assert html + Paragraph(lines[i]) == html;
  }

  /** The body of the first `i + 1` lines is that of the first `i` and the paragraph of line `i`. */
  lemma BodyStep(lines: seq<string>, i: nat)
    requires i < |lines|
    ensures Body(lines[..i + 1]) == Body(lines[..i]) + Paragraph(lines[i])
  {
    assert lines[..i + 1][..i] == lines[..i];
  }

  /** The non-blank lines, trimmed, in their order: the paragraphs' texts. */
  function NonBlank(lines: seq<string>): (ps: seq<string>)
    ensures |ps| <= |lines|
  {
    if lines == [] then [] else NonBlank(lines[..|lines| - 1]) + Kept(lines[|lines| - 1])
  }

  /** Every paragraph has text, and none begins or ends with whitespace. */
  lemma {:induction false} NonBlankTexts(lines: seq<string>)
    ensures forall k :: 0 <= k < |NonBlank(lines)| ==> IsParagraphText(NonBlank(lines)[k])
    decreases |lines|
  {
    if lines != [] {
      var last := lines[|lines| - 1];
      NonBlankTexts(lines[..|lines| - 1]);
      TrimByIdempotent(last, IsWhitespace);
      var init, ps := NonBlank(lines[..|lines| - 1]), Kept(last);
      forall k | 0 <= k < |init + ps|
        ensures IsParagraphText((init + ps)[k])
      {
        if k < |init| {
          assert (init + ps)[k] == init[k];
        } else {
          assert (init + ps)[k] == ps[k - |init|];
        }
      }
    }
  }

  /** Each text as a paragraph, one after another. */
  function Wrap(ps: seq<string>): string {
    if ps == [] then [] else Para(ps[0]) + Wrap(ps[1..])
  }

  lemma {:induction false} WrapAppend(a: seq<string>, b: seq<string>)
    ensures Wrap(a + b) == Wrap(a) + Wrap(b)
    decreases |a|
  {
    if a != [] {
      assert (a + b)[0] == a[0];
      assert (a + b)[1..] == a[1..] + b;
      WrapAppend(a[1..], b);
      calc {
        Wrap(a + b);
        Para(a[0]) + Wrap(a[1..] + b);
        Para(a[0]) + (Wrap(a[1..]) + Wrap(b));
        (Para(a[0]) + Wrap(a[1..])) + Wrap(b);
      }
    } else {
      assert a + b == b;
    }
  }

  /** One line's paragraph is the wrapped text it keeps. */
  lemma ParagraphIsWrapKept(line: string)
    ensures Paragraph(line) == Wrap(Kept(line))
  {
    var ps := Kept(line);
    if ps != [] {
      assert ps[1..] == [];
    }
  }

  /**
   * The body holds exactly one paragraph per non-blank line, with the
   * line's trimmed text, in the order of the lines; blank lines add nothing.
   */
  lemma {:induction false} BodyIsParagraphs(lines: seq<string>)
    ensures Body(lines) == Wrap(NonBlank(lines))
    decreases |lines|
  {
    if lines != [] {
      var init, last := lines[..|lines| - 1], lines[|lines| - 1];
      assert lines == init + [last];
      BodyIsParagraphs(init);
      WrapAppend(NonBlank(init), Kept(last));
      ParagraphIsWrapKept(last);
    }
  }

  /** The body of two runs of lines is the body of the first followed by the body of the second. */
  lemma {:induction false} BodyAppend(a: seq<string>, b: seq<string>)
    ensures Body(a + b) == Body(a) + Body(b)
    decreases |b|
  {
    if b == [] {
      assert a + b == a;
    } else {
      var init, last := b[..|b| - 1], b[|b| - 1];
      BodyAppend(a, init);
      assert (a + b)[..|a + b| - 1] == a + init && (a + b)[|a + b| - 1] == last;
      AppendAssociative(Body(a), Body(init), Paragraph(last));
    }
  }

  /** Texts that are paragraphs already are kept as they are. */
  lemma {:induction false} NonBlankOfParagraphs(ps: seq<string>)
    requires forall k :: 0 <= k < |ps| ==> IsParagraphText(ps[k])
    ensures NonBlank(ps) == ps
    decreases |ps|
  {
    if ps != [] {
      var init, last := ps[..|ps| - 1], ps[|ps| - 1];
      forall k | 0 <= k < |init|
        ensures IsParagraphText(init[k])
      {
        assert init[k] == ps[k];
      }
      NonBlankOfParagraphs(init);
      KeptParagraph(last);
      NonBlankSnoc(init, last);
      assert ps == init + [last];
    }
  }

  lemma KeptParagraph(p: string)
    requires IsParagraphText(p)
    ensures Kept(p) == [p]
  {
  }

  lemma NonBlankSnoc(lines: seq<string>, line: string)
    ensures NonBlank(lines + [line]) == NonBlank(lines) + Kept(line)
  {
    assert (lines + [line])[..|lines|] == lines;
  }

  /**
   * A chapter file whose lines are paragraph texts gives one paragraph per
   * line with that very text: the body is the paragraphs of the file, wrapped.
   */
  lemma ParagraphsRoundTrip(ps: seq<string>)
    requires forall k :: 0 <= k < |ps| ==> IsParagraphText(ps[k]) && '\n' !in ps[k]
    ensures Body(Lines(JoinLines(ps))) == Wrap(ps)
  {
    forall k | 0 <= k < |ps|
      ensures ps[k] != [] && '\n' !in ps[k] && ps[k][|ps[k]| - 1] != '\r'
    {
      assert !IsWhitespace(ps[k][|ps[k]| - 1]);
    }
    LinesOfJoin(ps);
    BodyIsParagraphs(ps);
    NonBlankOfParagraphs(ps);
  }

  /** A blank line between two parts of a chapter changes nothing in its page. */
  lemma BlankLineIgnored(a: seq<string>, blank: string, b: seq<string>)
    requires forall k :: 0 <= k < |blank| ==> IsWhitespace(blank[k])
    ensures Body(a + [blank] + b) == Body(a + b)
  {
    TrimByEmpty(blank, IsWhitespace);
    assert (a + [blank])[..|a|] == a;
    assert Body(a + [blank]) == Body(a) + [];
    BodyAppend(a + [blank], b);
    BodyAppend(a, b);
  }


  // ---------------------------------------------------------------------
  // Choosing and ordering the chapter files (lines 124-143)
  // ---------------------------------------------------------------------

  /** An item of the directory listing: one that could not be read, or a file name. */
  datatype DirEntry = Unreadable | Entry(name: string)

  predicate IsMarkdown(name: string) {
    Extension(name) == Some("md")
  }

  /** The file names kept by the `filter_map` of lines 125-136: the readable items whose extension is `md`. */
  function SelectChapters(entries: seq<DirEntry>): (names: seq<string>)
    ensures |names| <= |entries|
    ensures forall k :: 0 <= k < |names| ==> IsMarkdown(names[k])
  {
    if entries == [] then []
    else
      var e := entries[0];
      (if e.Entry? && IsMarkdown(e.name) then [e.name] else []) + SelectChapters(entries[1..])
  }

  /** Each `.md` file is kept as often as it is listed, in the listing's order; nothing else is kept. */
  lemma {:induction false} SelectedExactly(entries: seq<DirEntry>, name: string)
    ensures multiset(SelectChapters(entries))[name] == if IsMarkdown(name) then multiset(entries)[Entry(name)] else 0
    decreases |entries|
  {
    if entries != [] {
      SelectedExactly(entries[1..], name);
      SelectedFirst(entries, name);
      ListedFirst(entries, name);
    }
  }

  /** The first entry's share of the selected names, and the rest's. */
  lemma SelectedFirst(entries: seq<DirEntry>, name: string)
    requires entries != []
    ensures multiset(SelectChapters(entries))[name]
         == (if entries[0] == Entry(name) && IsMarkdown(name) then 1 else 0) + multiset(SelectChapters(entries[1..]))[name]
  {
    var e := entries[0];
    var kept := if e.Entry? && IsMarkdown(e.name) then [e.name] else [];
    assert SelectChapters(entries) == kept + SelectChapters(entries[1..]);
    assert multiset(kept)[name] == if e == Entry(name) && IsMarkdown(name) then 1 else 0;
  }

  /** The first entry's share of the listing, and the rest's. */
  lemma ListedFirst(entries: seq<DirEntry>, name: string)
    requires entries != []
    ensures multiset(entries)[Entry(name)]
         == (if entries[0] == Entry(name) then 1 else 0) + multiset(entries[1..])[Entry(name)]
  {
    assert entries == [entries[0]] + entries[1..];
  }

  lemma {:induction false} SelectAppend(a: seq<DirEntry>, b: seq<DirEntry>)
    ensures SelectChapters(a + b) == SelectChapters(a) + SelectChapters(b)
    decreases |a|
  {
    if a != [] {
      assert (a + b)[1..] == a[1..] + b;
      SelectAppend(a[1..], b);
    } else {
      assert a + b == b;
    }
  }

  /** What `natord::compare` must be for the sort to order: total and transitive ("not after" is `le`). */
  ghost predicate TotalPreorder(le: (string, string) -> bool) {
    && (forall x, y :: le(x, y) || le(y, x))
    && (forall x, y, z :: le(x, y) && le(y, z) ==> le(x, z))
  }

  ghost predicate Sorted(s: seq<string>, le: (string, string) -> bool) {
    forall p, q :: 0 <= p < q < |s| ==> le(s[p], s[q])
  }

  /** `chapters.sort_by(...)` of line 138: the same names, reordered so that each is `le` every later one. */
  method SortChapters(a: array<string>, le: (string, string) -> bool)
    requires TotalPreorder(le)
    modifies a
    ensures Sorted(a[..], le)
    ensures multiset(a[..]) == multiset(old(a[..]))
  {
    var i := 0;
    while i < a.Length
      invariant 0 <= i <= a.Length
      invariant Sorted(a[..i], le)
      invariant multiset(a[..]) == multiset(old(a[..]))
    {
      InsertInto(a, i, le);
      i := i + 1;
    }
  }

  /** One round of the insertion sort: `a[i]` moves down into the sorted `a[..i]`, leaving `a[..i + 1]` sorted. */
  method InsertInto(a: array<string>, i: nat, le: (string, string) -> bool)
    requires TotalPreorder(le)
    requires i < a.Length && Sorted(a[..i], le)
    modifies a
    ensures Sorted(a[..i + 1], le)
    ensures multiset(a[..]) == multiset(old(a[..]))
    ensures a[i + 1..] == old(a[i + 1..])
  {
    var j := i;
    StartSinking(a[..], i, le);
    while j > 0 && !le(a[j - 1], a[j])
      invariant 0 <= j <= i
      invariant Sinking(a[..], i, j, le)
      invariant multiset(a[..]) == multiset(old(a[..]))
      invariant a[i + 1..] == old(a[i + 1..])
    {
      ghost var before := a[..];
      a[j - 1], a[j] := a[j], a[j - 1];
      assert a[..] == before[j - 1 := before[j]][j := before[j - 1]];
      SwapStep(before, a[..], i, j, le);
      j := j - 1;
    }
    InsertedSorted(a[..], i, j, le);
  }

  /**
   * The invariant of the inner loop while the name from position `i` sits at
   * `j`: the first `i + 1` names without it are in order, and it is not after
   * any name to its right.
   */
  ghost predicate Sinking(s: seq<string>, i: nat, j: nat, le: (string, string) -> bool)
    requires j <= i < |s|
  {
    && (forall p, q :: 0 <= p < q <= i && p != j && q != j ==> le(s[p], s[q]))
    && (forall q :: j < q <= i ==> le(s[j], s[q]))
  }

  /** Before any swap the invariant is the sortedness of the first `i` names. */
  lemma StartSinking(s: seq<string>, i: nat, le: (string, string) -> bool)
    requires i < |s| && Sorted(s[..i], le)
    ensures Sinking(s, i, i, le)
  {
    forall p, q | 0 <= p < q < i
      ensures le(s[p], s[q])
    {
      assert s[..i][p] == s[p] && s[..i][q] == s[q];
    }
  }

  /** Swapping the moving name with a left neighbour that is after it keeps the invariant, one place further left. */
  lemma SwapStep(s: seq<string>, t: seq<string>, i: nat, j: nat, le: (string, string) -> bool)
    requires TotalPreorder(le)
    requires 0 < j <= i < |s| && Sinking(s, i, j, le) && !le(s[j - 1], s[j])
    requires t == s[j - 1 := s[j]][j := s[j - 1]]
    ensures Sinking(t, i, j - 1, le)
    ensures multiset(t) == multiset(s)
    ensures t[i + 1..] == s[i + 1..]
  {
    assert le(s[j], s[j - 1]);
  }

  /** Once the moving name is not before its left neighbour, the first `i + 1` names are in order. */
  lemma InsertedSorted(s: seq<string>, i: nat, j: nat, le: (string, string) -> bool)
    requires TotalPreorder(le)
    requires j <= i < |s| && Sinking(s, i, j, le)
    requires j > 0 ==> le(s[j - 1], s[j])
    ensures Sorted(s[..i + 1], le)
  {
    forall p | 0 <= p < j
      ensures le(s[p], s[j])
    {
      if p < j - 1 {
        assert le(s[p], s[j - 1]);
      }
    }
    var u := s[..i + 1];
    forall p, q | 0 <= p < q < |u|
      ensures le(u[p], u[q])
    {
      assert u[p] == s[p] && u[q] == s[q];
    }
  }

  /** `format!("chapter_{i}.xhtml")`: the name of the i-th page in the book. */
  function XhtmlName(i: nat): string {
    "chapter_" + Decimal(i) + ".xhtml"
  }

  /** Pages at different positions get different names. */
  lemma XhtmlNamesDistinct(i: nat, j: nat)
    requires i != j
    ensures XhtmlName(i) != XhtmlName(j)
  {
    DecimalInjective(i, j);
    var a, b := XhtmlName(i), XhtmlName(j);
    if |a| == |b| {
      assert a[8..|a| - 6] == Decimal(i);
      assert b[8..|b| - 6] == Decimal(j);
    }
  }

  // ---------------------------------------------------------------------
  // The chapters of the book (lines 171-182)
  // ---------------------------------------------------------------------

  /** What one `add_content` call receives: the page's name, its title and its XHTML. */
  datatype Content = Content(file: string, title: string, html: string)

  /** The title of a chapter file, from its name. */
  function ChapterTitle(name: string): string {
    ExtractChapterTitle(Some(FileStem(name)))
  }

  /** The page added for the i-th chapter file in the sorted order, whose text is `text`. */
  function ChapterContent(i: nat, name: string, text: string): Content {
    var title := ChapterTitle(name);
    Content(XhtmlName(i), title, Page(title, text))
  }

  /** The first `|pages|` chapter files could be read, and `pages` holds their pages in order. */
  ghost predicate PagesFor(chapters: seq<string>, read: string -> Option<string>, pages: seq<Content>) {
    && |pages| <= |chapters|
    && forall k :: 0 <= k < |pages| ==>
         read(chapters[k]).Some? && pages[k] == ChapterContent(k, chapters[k], read(chapters[k]).value)
  }

  lemma PagesForNext(chapters: seq<string>, read: string -> Option<string>, pages: seq<Content>, text: string)
    requires PagesFor(chapters, read, pages) && |pages| < |chapters|
    requires read(chapters[|pages|]) == Some(text)
    ensures PagesFor(chapters, read, pages + [ChapterContent(|pages|, chapters[|pages|], text)])
  {
    var next := pages + [ChapterContent(|pages|, chapters[|pages|], text)];
    forall k | 0 <= k < |next|
      ensures read(chapters[k]).Some? && next[k] == ChapterContent(k, chapters[k], read(chapters[k]).value)
    {
      if k < |pages| {
        assert next[k] == pages[k];
      } else {
        assert k == |pages|;
      }
    }
  }

  /**
   * The loop of lines 172-182 over the sorted file names, given what each
   * file holds (`None` when it cannot be read as text): every page in order,
   * or the position of the first file that cannot be read, where the `?` of
   * line 173 ends the build.
   */
  method BuildContents(chapters: seq<string>, read: string -> Option<string>) returns (r: Result<seq<Content>, nat>)
    ensures r.Ok? <==> forall i :: 0 <= i < |chapters| ==> read(chapters[i]).Some?
    ensures r.Ok? ==> |r.value| == |chapters| && PagesFor(chapters, read, r.value)
    ensures r.Err? ==> r.error < |chapters| && read(chapters[r.error]).None?
    ensures r.Err? ==> forall i :: 0 <= i < r.error ==> read(chapters[i]).Some?
  {
    var pages: seq<Content> := [];
    var i := 0;
    while i < |chapters|
      invariant 0 <= i <= |chapters| && |pages| == i
      invariant PagesFor(chapters, read, pages)
    {
      var path := chapters[i];
      match read(path) {
        case None =>
          return Err(i);
        case Some(text) =>
          var title := ChapterTitle(path);
          var html := MarkdownToHtml(title, text);
          PagesForNext(chapters, read, pages, text);
          pages := pages + [Content(XhtmlName(i), title, html)];
      }
      i := i + 1;
    }
    return Ok(pages);
  }

  /** The pages of one book have pairwise different names. */
  lemma ContentFilesDistinct(chapters: seq<string>, texts: seq<string>, i: nat, j: nat)
    requires |texts| == |chapters| && i < |chapters| && j < |chapters| && i != j
    ensures ChapterContent(i, chapters[i], texts[i]).file != ChapterContent(j, chapters[j], texts[j]).file
  {
    XhtmlNamesDistinct(i, j);
  }

  /**
   * `epub_build` up to the packaging: the `.md` files of the listing, sorted
   * by `le`, turned into pages named by their position.
   */
  method EpubChapters(entries: seq<DirEntry>, le: (string, string) -> bool, read: string -> Option<string>)
    returns (order: seq<string>, r: Result<seq<Content>, nat>)
    requires TotalPreorder(le)
    ensures multiset(order) == multiset(SelectChapters(entries)) && Sorted(order, le)
    ensures r.Ok? <==> forall i :: 0 <= i < |order| ==> read(order[i]).Some?
    ensures r.Ok? ==> |r.value| == |order| && PagesFor(order, read, r.value)
    ensures r.Err? ==> r.error < |order| && read(order[r.error]).None?
    ensures r.Err? ==> forall i :: 0 <= i < r.error ==> read(order[i]).Some?
  {
    var a := ArrayOf(SelectChapters(entries));
    SortChapters(a, le);
    order := a[..];
    r := BuildContents(order, read);
  }

  /** The `Vec` that `collect` builds from the selected names, as a fresh array. */
  method ArrayOf(s: seq<string>) returns (a: array<string>)
    ensures fresh(a) && a[..] == s
  {
    a := new string[|s|](k requires 0 <= k < |s| => s[k]);
  }
}
