# download-metruyenchu, modelled in Dafny

A model of the logic at the core of a small scraper for serialised novels:

- **The resumable download loop** (`download_me_truyen_chu`). It walks the saved chapter list in order and skips entries already flagged `is_download`. For each other entry it drives a browser to the chapter page. When the page script yields a value, it cleans the text (`format_content`) and writes it to `download/<sanitised name>.md`. It then flags the entry in memory and rewrites the whole list file.
- **Reading the chapter list** out of the table-of-contents page (`extract_chapters_from_html`). This is modelled over the sequence of matched elements.
- **The e-book helpers** (`src/epub.rs`):
  - the console metadata and its defaults;
  - the chapter title drawn from a file stem;
  - the XHTML page built from a chapter's text;
  - the `.md` filter, the sort and the `chapter_{i}.xhtml` naming of `epub_build`.
- **The `Chapter` record** and the serde default of its `is_download` field.

Modules:

- `Results`: `Option` and `Result`.
- `Text`: the parts of Rust's standard library the program relies on:
  - `trim` and `trim_matches`;
  - `find`;
  - `lines`;
  - decimal formatting.
- `Model`: `src/model.rs`.
- `ChapterList`: `src/chapter.rs`.
- `Normalize`:
  - `format_content`;
  - `sanitize_filename`;
  - `serde_json`'s quoting of a string value, whose output `format_content` receives at line 49.
- `Download`: the loop.
- `Epub`: `src/epub.rs`.

The loop is an imperative method, `Download.DownloadAll`, on an `array<Chapter>`:

- It is proved equal to the pure specification `Download.RunAll`, and the lemmas state the loop's guarantees about that specification.
- The browser and the disk are replaced by one `Attempt` per entry. An attempt says how far the work on that entry gets: every `?` and every soft failure of the loop body is one case.
- The effects on the outside world are a ghost log of `Visit`, `WriteChapter` and `WriteList` events. A `WriteChapter` event records the chapter's name and the value the page script returned. `Download.WrittenFile` derives the file path and the saved text from them, through `sanitize_filename` and `format_content`.
- The loop body is the method `Download.VisitEntry`. It is proved to do what one `Download.Step` specifies.

The error paths follow the code. The `?` operators at lines 28, 35, 46, 53 and 58 of `src/download_me_truyen_chu.rs` return from the function. A failure there ends the whole run (`Status.Aborted`); it is not skipped. Only a navigation failure (lines 30-33), a missing content element (lines 37-40) and a script without a value (line 48) move on to the next entry. As at line 48, an entry is flagged whatever text the script returned, even the "not found" placeholder the script yields when the element vanished.

Because the page text reaches `format_content` through `Value::to_string()`, it arrives JSON-quoted. `format_content`'s first-and-last-character cut removes exactly those quotes: for text without backslashes or control characters other than newline, the saved file is the text with newline runs collapsed. Other escapes do not survive: a tab, for instance, is saved as the letter `t`.

## Model

| member | source | states |
|---|---|---|
| Model.Decode | src/model.rs:3-9 | the name and link are taken over unchanged; `is_download` is true exactly when the stored field is present and true, so a missing field means false |
| Model.DecodeEncode | src/model.rs:3-9 | reading back a written chapter gives the same chapter |
| Model.DecodeEncodeList | src/download_me_truyen_chu.rs:58 | a list written at line 58 reads back, at line 12, as the same list of the same length |
| ChapterList.ChapterName | src/chapter.rs:17-22 | the name is the trimmed title text when that is non-empty, otherwise "Không rõ tên"; it is never empty |
| ChapterList.ToChapter | src/chapter.rs:15-29 | an element yields a chapter exactly when it has an `href`; the link is that `href` verbatim and the chapter is not downloaded |
| ChapterList.ExtractChapters | src/chapter.rs:13-30 | no more chapters than elements; every chapter is undownloaded and has a non-empty name |
| ChapterList.ExtractedLinksAreHrefs | src/chapter.rs:13-30 | the links of the result are exactly the `href` values of the elements that have one, in document order; the length is their count |
| ChapterList.ExtractConcat | src/chapter.rs:13-30 | extraction distributes over concatenation of the element sequence (order preserved) |
| ChapterList.ExtractOne | src/chapter.rs:15-29 | one element yields nothing without `href`, else exactly `Chapter(name, href, false)` |
| Normalize.UnescapeNewlines | src/download_me_truyen_chu.rs:83 | replacing backslash-n by a newline never lengthens the text |
| Normalize.DeleteBackslashes | src/download_me_truyen_chu.rs:83 | no backslash is left; text without one is unchanged |
| Normalize.CollapseNewlines | src/download_me_truyen_chu.rs:82-84 | no two consecutive newlines remain; empty iff the input is; first and last characters are kept; no backslash is introduced |
| Normalize.CollapseClean | src/download_me_truyen_chu.rs:84 | text without a run of newlines is left unchanged by the collapse |
| Normalize.UnescapeNoBackslash | src/download_me_truyen_chu.rs:83 | text without backslash is left unchanged by the unescape |
| Normalize.Cleaned | src/download_me_truyen_chu.rs:82-84 | after the replacements and the collapse there is no backslash and no blank line run |
| Normalize.FormatContent | src/download_me_truyen_chu.rs:81-90 | the saved text contains no backslash and no two consecutive newlines |
| Normalize.FormatContentCutsEnds | src/download_me_truyen_chu.rs:85-89 | empty cleaned text stays empty; otherwise exactly its first and last characters are removed (length minus two, or empty for one character) |
| Normalize.QuotedRoundTrip | src/download_me_truyen_chu.rs:81-90 | for text with no backslash and no newline run, formatting the text wrapped in double quotes gives the text back (the quoting is that of line 49) |
| Normalize.EscapeChar | src/download_me_truyen_chu.rs:49 | a character is written with a leading backslash exactly when it is a quote, a backslash or a control character |
| Normalize.JsonString | src/download_me_truyen_chu.rs:49 | the JSON form of a string value starts and ends with a double quote |
| Normalize.UnescapeEscaped | src/download_me_truyen_chu.rs:83 | on JSON-escaped plain text, the two replacements of line 83 give back the original characters (the escaping is that of line 49) |
| Normalize.CleanedQuoted | src/download_me_truyen_chu.rs:82-84 | a quoted value is cleaned to the quotes around the collapsed inner text |
| Normalize.JsonRoundTrip | src/download_me_truyen_chu.rs:48-90 | for page text without backslash or control characters other than newline, the saved text is that text with newline runs collapsed: the quotes added at line 49 are the characters cut at lines 86-87 |
| Normalize.JsonRoundTripClean | src/download_me_truyen_chu.rs:48-90 | such page text without newline runs is saved exactly |
| Normalize.FormatBlankRun | src/download_me_truyen_chu.rs:81-90 | a run of three newlines between two lines becomes a single newline, and the outer characters are cut |
| Normalize.CollapseNewlineRun | src/download_me_truyen_chu.rs:82-84 | a run of any number k ≥ 1 of newlines, followed by the end of the text or a character other than a newline, collapses to a single newline |
| Normalize.CollapseKeepsOthers | src/download_me_truyen_chu.rs:82-84 | the collapse removes only newlines: with every newline dropped, the collapsed text and the input are the same sequence of characters |
| Normalize.CollapseKeepsNewline | src/download_me_truyen_chu.rs:82-84 | the collapsed text contains a newline exactly when the input does |
| Normalize.FormatContentTab | src/download_me_truyen_chu.rs:49-83 | a tab in the page text is saved as the letter `t` (its JSON escape loses the backslash) |
| Normalize.SanitizeName | src/download_me_truyen_chu.rs:102-111 | same length as the name; every character is alphanumeric, a space or `_`; a character that is alphanumeric or a space is kept, and every other character becomes `_` |
| Normalize.SanitizeIdempotent | src/download_me_truyen_chu.rs:102-111 | sanitising twice is the same as sanitising once |
| Normalize.SanitizeFilename | src/download_me_truyen_chu.rs:94-114 | the path is `download/` followed by exactly as many characters as the name, each alphanumeric, a space or `_` |
| Normalize.ChapterFile | src/download_me_truyen_chu.rs:51 | the chapter file path is 12 characters longer than the name (`download/` and `.md`) |
| Normalize.SanitizeExample | src/download_me_truyen_chu.rs:102-113 | "Chương 1: Mở đầu!" becomes "download/Chương 1_ Mở đầu_" |
| Download.Step | src/download_me_truyen_chu.rs:19-61 | one loop pass keeps the list's shape (length, names, links, flags only go to true) and changes no entry other than the current one |
| Download.RunUpTo | src/download_me_truyen_chu.rs:17-62 | after the first n entries the shape is kept, later entries are untouched, and a stop happened at an entry already looked at |
| Download.DownloadAll | src/download_me_truyen_chu.rs:17-65 | the array ends as the specification's list, the effect log is the specification's, and the result is `Ok` exactly when no fatal error stopped the run, else the error at the entry where it stopped |
| Download.VisitEntry | src/download_me_truyen_chu.rs:19-61 | one pass of the loop body on the array does what `Step` specifies: the same new list, the same effects, and a fatal outcome exactly when `Step` stops at this entry |
| Download.StopIsFinal | src/download_me_truyen_chu.rs:28-58 | once an error has ended the run, later entries change nothing (the `?` of lines 28, 35, 46, 53 and 58) |
| Download.MarkedExactly | src/download_me_truyen_chu.rs:21-56 | an entry ends flagged exactly when it was flagged before, or it was reached and the script yielded a value whose chapter file was written |
| Download.PersistedAppend | src/download_me_truyen_chu.rs:58 | the list file's contents are those of the last list write |
| Download.PersistedMatchesList | src/download_me_truyen_chu.rs:53-58 | the list file always equals the in-memory list, except for an entry whose flag was set when rewriting the list failed (that entry keeps its original flag on disk, a failed write being taken to leave the file as it was) |
| Download.TouchedStep | src/download_me_truyen_chu.rs:21-53 | one pass visits the entry exactly when it is not flagged, and writes its chapter file exactly when it is not flagged and the attempt yields a written value |
| Download.TouchedExactly | src/download_me_truyen_chu.rs:21-53 | the browser is driven for exactly the reached unflagged entries and chapter files are written for exactly those that were reached, unflagged and given a written value; a flagged entry causes no browser call and no write (a failed chapter write counts as no write) |
| Download.WritesCarryEntry | src/download_me_truyen_chu.rs:48-53 | every chapter write of the run is for an entry of the list, under that entry's name, and with the text of that entry's page value (its attempt gave a value) |
| Download.WrittenFilesOfRun | src/download_me_truyen_chu.rs:49-53 | each chapter write of the run creates `download/<sanitised entry name>.md` holding `format_content` of the JSON form of that entry's page value |
| Download.ListWrittenAfterEachMark | src/download_me_truyen_chu.rs:53-58 | every chapter write is followed at once by a list write in which that entry is flagged (unless the run ended there), and every list write follows a chapter write |
| Download.StopsExactlyAtFirstFatal | src/download_me_truyen_chu.rs:28-58 | the run stops at the first reached unflagged entry whose attempt fails fatally, and does not stop if there is none (the `?` of lines 28, 35, 46, 53 and 58) |
| Download.AllMarkedIsNoop | src/download_me_truyen_chu.rs:21-24 | when every entry is already flagged, nothing changes and no effect happens |
| Download.ThreeEntryRun | src/download_me_truyen_chu.rs:17-62 | with a flagged first entry, a successful second and a navigation failure on the third: only the second is flagged, and the effects are visit 1, its chapter file, the list, visit 2 |
| Text.TrimBySlice | src/chapter.rs:20 | `trim` keeps a contiguous piece of the text and cuts only whitespace from either side |
| Text.TrimByIdempotent | src/epub.rs:115 | trimming twice is the same as trimming once |
| Text.TrimByEmpty | src/epub.rs:58-59 | the trimmed text is empty exactly when every character is whitespace |
| Text.TrimByNotIn | src/epub.rs:105-115 | trimming introduces no character that was not there |
| Text.Find | src/epub.rs:108 | `find` returns the first position of the character, and `None` exactly when it does not occur |
| Text.Lines | src/epub.rs:90 | no line contains a newline; there are no lines exactly when the text is empty |
| Text.LinesJoin | src/epub.rs:90 | lines joined back with newlines give the text, when it has no carriage return and does not end in a newline |
| Text.LinesOfJoin | src/epub.rs:90 | non-empty lines without line endings, joined with newlines, split back into the same lines |
| Text.Decimal | src/epub.rs:175 | a number is written as a non-empty run of digits without a leading zero |
| Text.DecimalRoundTrip | src/epub.rs:175 | the written digits read back as the number |
| Text.DecimalInjective | src/epub.rs:175 | different numbers are written differently |
| Epub.ReadInput | src/epub.rs:41-49 | the answer is the trimmed line: no whitespace at its ends, empty exactly when the line is all whitespace |
| Epub.ReadInputWithDefault | src/epub.rs:51-64 | an all-whitespace line gives the default; any other line gives its trimmed, non-empty text |
| Epub.ReadInputWithDefaultStable | src/epub.rs:58-63 | for a trimmed default, giving the chosen answer again chooses the same value |
| Epub.ReadFromConsole | src/epub.rs:17-39 | title and author are the trimmed answers; the image link and folder fall back to "cover.png" and "./download" on a blank answer |
| Epub.LastDot | src/epub.rs:100-101 | the position of the last dot, and `None` exactly when there is none (also the extension test of line 129) |
| Epub.SplitAtDot | src/epub.rs:100-101 | without an extension the stem is the name; with one, the name is a non-empty stem, a dot and a dot-free extension (also the extension test of line 129) |
| Epub.StemAndExtension | src/epub.rs:100-101 | the same facts for `file_stem` and `extension` (also the extension test of line 129) |
| Epub.SplitJoin | src/epub.rs:100-101 | a non-empty stem, a dot and a dot-free extension split back into that stem and that extension (the name ".." excepted; also the extension test of line 129) |
| Epub.ReplaceUnderscores | src/epub.rs:105 | same length, no `_` left: each `_` becomes `:` and every other character is kept |
| Epub.MarkChapterWord | src/epub.rs:107-113 | inserting the colon adds no `_` |
| Epub.ColonAfterChapterWord | src/epub.rs:107-113 | when the text before the first space is "chương" up to ASCII case, exactly one `:` is inserted right after it and all else is kept |
| Epub.NoColonOtherwise | src/epub.rs:107-113 | without a space, or with a different first word, the text is unchanged |
| Epub.ExtractChapterTitle | src/epub.rs:99-116 | the title contains no `_` and neither starts nor ends with whitespace |
| Epub.UnknownChapterTitle | src/epub.rs:100-115 | a path without a usable stem gets the title "Chương: không rõ" (the fallback also receives the colon) |
| Epub.MarkdownToHtml | src/epub.rs:73-96 | the page is the XHTML header with the title, one paragraph per line as `Body` defines, then `</body></html>` |
| Epub.AppendParagraphs | src/epub.rs:90-92 | the loop appends to the page so far exactly the paragraphs `Body` defines for the lines |
| Epub.NonBlankTexts | src/epub.rs:90-91 | every kept paragraph text is non-empty and trimmed |
| Epub.BodyIsParagraphs | src/epub.rs:90-92 | the body is exactly `<p>` + trimmed line + `</p>` and a newline for each non-blank line, in line order |
| Epub.BodyAppend | src/epub.rs:90-92 | the body of concatenated lines is the concatenation of their bodies |
| Epub.BlankLineIgnored | src/epub.rs:90 | an all-whitespace line contributes nothing |
| Epub.ParagraphsRoundTrip | src/epub.rs:90-92 | trimmed non-empty paragraphs written one per line come back as exactly those paragraphs |
| Epub.SelectChapters | src/epub.rs:125-136 | at most one name per directory entry, each with extension `md` |
| Epub.SelectedExactly | src/epub.rs:125-136 | each `.md` name is kept as many times as it is listed, unreadable entries and other names are dropped |
| Epub.SelectAppend | src/epub.rs:125-136 | selection preserves the listing order |
| Epub.SortChapters | src/epub.rs:138-143 | the names end ordered by the comparator and are a permutation of the names before |
| Epub.InsertInto | src/epub.rs:138 | one round of the insertion sort leaves the first `i + 1` names ordered, permutes the array, and leaves the names after position `i` in place |
| Epub.XhtmlNamesDistinct | src/epub.rs:175 | pages at different positions get different `chapter_{i}.xhtml` names |
| Epub.PagesForNext | src/epub.rs:172-181 | adding the page of the next chapter keeps the pages in step with the chapters |
| Epub.BuildContents | src/epub.rs:171-182 | success exactly when every chapter file can be read; then the i-th page is `chapter_{i}.xhtml` with the i-th file's title and page; on failure the error is at the first unreadable file |
| Epub.ContentFilesDistinct | src/epub.rs:172-181 | no two added pages share a file name |
| Epub.EpubChapters | src/epub.rs:119-182 | the chapters are a sorted permutation of the selected `.md` files; the pages are built from them in that order exactly when every file reads, else the error is the first file that cannot be read |

## Left out

- The browser (headless_chrome) at src/download_me_truyen_chu.rs:14-46 and src/chapter.rs:35-51 is replaced by one `Attempt` per entry. Cookies, navigation, the content wait and the page script are outcomes, not computations.
- `get_chapters` in src/chapter.rs is browser and file I/O. Only `extract_chapters_from_html` is modelled.
- HTML parsing and CSS selector matching (scraper) are replaced by a sequence of matched elements. Each element has an optional `href` and the optional text of its first title element.
- Reading and parsing the list file before the loop (src/download_me_truyen_chu.rs:11-12) and opening the browser (lines 14-15) are not modelled. The loop starts from the parsed list.
- serde_json's pretty printing of the list is not modelled. A `WriteList` event carries the list itself, and `Model.DecodeEncodeList` states that reading it back gives the same list.
- The regex crate (line 82) is not modelled. The collapse of newline runs is written directly as `Normalize.CollapseNewlines`.
- Directory creation inside `sanitize_filename` (lines 96-99) is left out because it is file-system I/O; its failure is only logged.
- A failed write is taken to leave its file as it was. `std::fs::write` truncates the file before writing, so a `write_all` failure at line 53 can leave a partial chapter file, and one at line 58 a truncated or partial list file. The model does not capture that partial content: `ChapterWriteFails` records no `WriteChapter` event, and `ListWriteFails` records no `WriteList` event, so the list last written stays the persisted one.
- The 800 ms sleep (line 61) and all progress messages are left out, because they are timing and console output.
- `char::is_alphanumeric` is a parameter (`isAlphanumeric`) because the Unicode tables are outside the model. `char::is_whitespace` is written out from the Unicode White_Space list.
- Console I/O in `read_input` and `read_input_with_default` (src/epub.rs:41-57) is left out: the line that was read is a parameter. A failed read panics in the source; that is not modelled.
- File reads are not modelled. `markdown_to_html` is modelled once the file's content is known. In `epub_build` each read is a `read` parameter returning `None` on failure.
- Non-UTF-8 file names (`to_str` returning `None`, `to_string_lossy`) are not modelled beyond the `None` stem of `Epub.ExtractChapterTitle`, because names are Dafny strings.
- `natord::compare` (src/epub.rs:139) is an abstract comparator `le`, required to be a total preorder.
- Epub.SortChapters: stability of `sort_by` is not stated; the method promises only a sorted permutation.
- E-book packaging (src/epub.rs:146-170 and 177-189) is left out because it is a foreign library and file output. This covers the CSS resource, the cover read, the metadata, `add_content`'s own errors, generation and the output file. The cover is always read from "cover.png", whatever `image_link` says.
- src/cookies.rs (environment variables and fixed cookie fields) and src/main.rs (command-line dispatch) are configuration and I/O plumbing.
- `str::lines` is modelled on Dafny strings; the `Text.Lines` result keeps a `\r` only at the very end, as Rust's does.
