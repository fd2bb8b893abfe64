/**
 * Cleaning of the text read from a chapter page and naming of the file it is
 * saved to (`format_content` and `sanitize_filename` in
 * src/download_me_truyen_chu.rs).
 */
module Normalize {
  import Text

  /** No two newlines in a row. */
  predicate NoBlankRun(s: string) {
    forall i :: 0 <= i < |s| - 1 ==> !(s[i] == '\n' && s[i + 1] == '\n')
  }

  /**
   * `replace("\\n", "\n")`: scanning left to right, every backslash that is
   * followed by the letter n is replaced, together with the n, by a newline.
   */
  function UnescapeNewlines(s: string): (r: string)
    ensures |r| <= |s|
  {
    if s == [] then []
    else if |s| >= 2 && s[0] == '\\' && s[1] == 'n' then "\n" + UnescapeNewlines(s[2..])
    else [s[0]] + UnescapeNewlines(s[1..])
  }

  /** `replace("\\", "")`. */
  function DeleteBackslashes(s: string): (r: string)
    ensures '\\' !in r
    ensures '\\' !in s ==> r == s
  {
    if s == [] then []
    else if s[0] == '\\' then DeleteBackslashes(s[1..])
    else [s[0]] + DeleteBackslashes(s[1..])
  }

  /** The regular expression `\n+` replaced by a single newline. */
  function CollapseNewlines(s: string): (r: string)
    ensures NoBlankRun(r)
    ensures r == [] <==> s == []
    ensures '\\' !in s ==> '\\' !in r
    ensures r != [] ==> r[0] == s[0] && r[|r| - 1] == s[|s| - 1]
  {
    if |s| <= 1 then s
    else if s[0] == '\n' && s[1] == '\n' then CollapseNewlines(s[1..])
    else [s[0]] + CollapseNewlines(s[1..])
  }

  /** The text after the replacements and the collapse, before the ends are cut. */
  function Cleaned(raw: string): (t: string)
    ensures '\\' !in t && NoBlankRun(t)
  {
    CollapseNewlines(DeleteBackslashes(UnescapeNewlines(raw)))
  }

  /** `format_content`: clean the text, then drop its first and its last character. */
  function FormatContent(raw: string): (text: string)
    ensures '\\' !in text
    ensures NoBlankRun(text)
  {
    var t := Cleaned(raw);
    if |t| <= 1 then [] else t[1..|t| - 1]
  }

  /**
   * The cut at the end: an empty cleaned text stays empty, and any other
   * loses exactly one character at each end (one in all when it has only one).
   */
  lemma FormatContentCutsEnds(raw: string)
    ensures var t, text := Cleaned(raw), FormatContent(raw);
      && (t == [] ==> text == [])
      && (|t| == 1 ==> text == [])
      && (|t| >= 2 ==> t == [t[0]] + text + [t[|t| - 1]] && |text| == |t| - 2)
  {
  }

  /** Collapsing changes nothing in a text without blank runs. */
  lemma {:induction false} CollapseClean(s: string)
    requires NoBlankRun(s)
    ensures CollapseNewlines(s) == s
    decreases |s|
  {
    if |s| > 1 {
      NoBlankRunTail(s);
      CollapseClean(s[1..]);
      assert !(s[0] == '\n' && s[1] == '\n');
      assert s == [s[0]] + s[1..];
    }
  }

  lemma NoBlankRunTail(s: string)
    requires s != [] && NoBlankRun(s)
    ensures NoBlankRun(s[1..])
  {
    forall i | 0 <= i < |s[1..]| - 1
      ensures !(s[1..][i] == '\n' && s[1..][i + 1] == '\n')
    {
      assert s[1..][i] == s[i + 1] && s[1..][i + 1] == s[i + 2];
    }
  }

  /** Unescaping changes nothing in a text without backslashes. */
  lemma {:induction false} UnescapeNoBackslash(s: string)
    requires '\\' !in s
    ensures UnescapeNewlines(s) == s
  {
    if s != [] {
      assert '\\' !in s[1..];
      UnescapeNoBackslash(s[1..]);
    }
  }

  /**
   * A text without backslashes and without blank runs, wrapped in one quote
   * character at each end, comes back unchanged: the quotes are what the cut removes.
   */
  lemma QuotedRoundTrip(s: string)
    requires '\\' !in s && NoBlankRun(s)
    ensures FormatContent("\"" + s + "\"") == s
  {
    var q := "\"" + s + "\"";
    assert '\\' !in q;
    UnescapeNoBackslash(q);
    assert NoBlankRun(q) by {
      forall i | 0 <= i < |q| - 1
        ensures !(q[i] == '\n' && q[i + 1] == '\n')
      {
        if 0 < i < |q| - 2 {
          assert q[i] == s[i - 1] && q[i + 1] == s[i];
        }
      }
    }
    CollapseClean(q);
    assert q[1..|q| - 1] == s;
  }

  /** The four hexadecimal digits of a control character, lower case as serde_json writes them. */
  function HexDigit(d: nat): (c: char)
    requires d < 16
  {
    "0123456789abcdef"[d]
  }

  /** How serde_json writes one character inside a JSON string. */
  function EscapeChar(c: char): (r: string)
    ensures r != [] && (r[0] == '\\' <==> c == '"' || c == '\\' || c < ' ')
  {
    if c == '"' then "\\\""
    else if c == '\\' then "\\\\"
    else if c == '\U{8}' then "\\b"
    else if c == '\U{C}' then "\\f"
    else if c == '\n' then "\\n"
    else if c == '\r' then "\\r"
    else if c == '\t' then "\\t"
    else if c < ' ' then "\\u00" + [HexDigit(c as int / 16), HexDigit(c as int % 16)]
    else [c]
  }

  function EscapeString(s: string): string {
    if s == [] then [] else EscapeChar(s[0]) + EscapeString(s[1..])
  }

  /** `serde_json::Value::String(s).to_string()`: the text between double quotes, escaped. */
  function JsonString(s: string): (r: string)
    ensures |r| >= 2 && r[0] == '"' && r[|r| - 1] == '"'
  {
    "\"" + EscapeString(s) + "\""
  }

  /** Characters the page text may hold for the text to survive the quoting and the cleaning. */
  predicate Plain(s: string) {
    forall k :: 0 <= k < |s| ==> s[k] != '\\' && (s[k] >= ' ' || s[k] == '\n')
  }

  lemma {:induction false} DeleteConcat(a: string, b: string)
    ensures DeleteBackslashes(a + b) == DeleteBackslashes(a) + DeleteBackslashes(b)
  {
    if a == [] {
      assert a + b == b;
    } else {
      assert (a + b)[1..] == a[1..] + b;
      DeleteConcat(a[1..], b);
    }
  }

  /** Unescaping then deleting backslashes undoes serde_json's escaping of plain text, whatever follows it. */
  lemma {:induction false} UnescapeEscaped(s: string, tail: string)
    requires Plain(s)
    ensures DeleteBackslashes(UnescapeNewlines(EscapeString(s) + tail))
         == s + DeleteBackslashes(UnescapeNewlines(tail))
    decreases |s|
  {
    if s == [] {
      assert EscapeString(s) + tail == tail;
    } else {
      assert Plain(s[1..]);
      UnescapeEscaped(s[1..], tail);
      UnescapeEscapedFirst(s, tail);
    }
  }

  /** The step of `UnescapeEscaped`: the first character, then the rest as already shown. */
  lemma UnescapeEscapedFirst(s: string, tail: string)
    requires s != [] && s[0] != '\\' && (s[0] >= ' ' || s[0] == '\n')
    requires DeleteBackslashes(UnescapeNewlines(EscapeString(s[1..]) + tail))
          == s[1..] + DeleteBackslashes(UnescapeNewlines(tail))
    ensures DeleteBackslashes(UnescapeNewlines(EscapeString(s) + tail))
         == s + DeleteBackslashes(UnescapeNewlines(tail))
  {
    var rest := EscapeString(s[1..]) + tail;
    var shownTail := DeleteBackslashes(UnescapeNewlines(tail));
    assert EscapeString(s) == EscapeChar(s[0]) + EscapeString(s[1..]);
    Text.AppendAssociative(EscapeChar(s[0]), EscapeString(s[1..]), tail);
    UnescapeEscapedChar(s[0], rest);
    Text.AppendAssociative([s[0]], s[1..], shownTail);
    assert s == [s[0]] + s[1..];
  }


  /** One escaped character, as in `UnescapeEscaped`. */
  lemma UnescapeEscapedChar(c: char, rest: string)
    requires c != '\\' && (c >= ' ' || c == '\n')
    ensures DeleteBackslashes(UnescapeNewlines(EscapeChar(c) + rest))
         == [c] + DeleteBackslashes(UnescapeNewlines(rest))
  {
    if c == '\n' {
      UnescapeEscapedNewline(rest);
    } else if c == '"' {
      UnescapeEscapedQuote(rest);
    } else {
      UnescapeUnescaped(c, rest);
    }
  }

  lemma UnescapeEscapedNewline(rest: string)
    ensures DeleteBackslashes(UnescapeNewlines("\\n" + rest))
         == "\n" + DeleteBackslashes(UnescapeNewlines(rest))
  {
    var x := "\\n" + rest;
    assert x[2..] == rest;
    DeleteConcat("\n", UnescapeNewlines(rest));
  }

  lemma UnescapeEscapedQuote(rest: string)
    ensures DeleteBackslashes(UnescapeNewlines("\\\"" + rest))
         == "\"" + DeleteBackslashes(UnescapeNewlines(rest))
  {
    var x := "\\\"" + rest;
    var y := "\"" + rest;
    assert x[1..] == y && y[1..] == rest;
    assert UnescapeNewlines(x) == "\\\"" + UnescapeNewlines(rest);
    DeleteConcat("\\\"", UnescapeNewlines(rest));
  }

  lemma UnescapeUnescaped(c: char, rest: string)
    requires c != '\\'
    ensures DeleteBackslashes(UnescapeNewlines([c] + rest))
         == [c] + DeleteBackslashes(UnescapeNewlines(rest))
  {
    var x := [c] + rest;
    assert x[1..] == rest;
    DeleteConcat([c], UnescapeNewlines(rest));
  }

  /** A character other than a newline at the end does not take part in collapsing. */
  lemma {:induction false} CollapseAppend(s: string, d: char)
    requires d != '\n'
    ensures CollapseNewlines(s + [d]) == CollapseNewlines(s) + [d]
  {
    if |s| == 1 {
      assert CollapseNewlines(s + [d]) == [s[0]] + CollapseNewlines([d]);
    } else if |s| >= 2 {
      assert (s + [d])[1..] == s[1..] + [d];
      CollapseAppend(s[1..], d);
    } else {
      assert s + [d] == [d];
    }
  }

  /**
   * When the escaped text between serde_json's quotes cleans up to `shown`,
   * the quotes survive the cleaning around the collapsed `shown`.
   */
  lemma CleanedQuoted(inner: string, shown: string)
    requires DeleteBackslashes(UnescapeNewlines(inner + "\"")) == shown + "\""
    ensures Cleaned("\"" + inner + "\"") == "\"" + CollapseNewlines(shown) + "\""
  {
    var j := "\"" + inner + "\"";
    assert j == "\"" + (inner + "\"");
    UnescapeUnescaped('"', inner + "\"");
    assert DeleteBackslashes(UnescapeNewlines(j)) == "\"" + shown + "\"";
    CollapseAppend("\"" + shown, '"');
    assert ("\"" + shown)[1..] == shown;
    if shown != [] {
      assert CollapseNewlines("\"" + shown) == "\"" + CollapseNewlines(shown);
    }
  }

  /**
   * What the loop saves for a page whose text has no backslash and no control
   * character but newlines: the page text itself with blank runs collapsed.
   * The quotes serde_json adds are what `format_content` cuts off.
   */
  lemma JsonRoundTrip(s: string)
    requires Plain(s)
    ensures FormatContent(JsonString(s)) == CollapseNewlines(s)
  {
    PlainQuoted(s);
    var c := Cleaned(JsonString(s));
    assert c[1..|c| - 1] == CollapseNewlines(s);
  }

  /** A clean page text is saved exactly as it was shown. */
  lemma JsonRoundTripClean(s: string)
    requires Plain(s) && NoBlankRun(s)
    ensures FormatContent(JsonString(s)) == s
  {
    JsonRoundTrip(s);
    CollapseClean(s);
  }

  /** A stretch without newlines is copied through the collapse as it is. */
  lemma {:induction false} CollapseAfterLine(p: string, s: string)
    requires '\n' !in p
    ensures CollapseNewlines(p + s) == p + CollapseNewlines(s)
  {
    if p != [] {
      var t := p + s;
      assert t[0] == p[0] && t[1..] == p[1..] + s;
      assert '\n' !in p[1..];
      CollapseAfterLine(p[1..], s);
      if |t| >= 2 {
        CollapseKeep(t);
        Text.AppendAssociative([p[0]], p[1..], CollapseNewlines(s));
        assert p == [p[0]] + p[1..];
      } else {
        assert s == [] && t == p;
      }
    } else {
      assert p + s == s;
    }
  }

  /**
   * Three newlines between two lines of text become one, and the characters
   * wrapping the text are cut (the example "XHello.\n\n\nWorld.X" gives
   * "Hello.\nWorld.").
   */
  lemma FormatBlankRun(x: char, a: string, b: string, y: char)
    requires x != '\n' && x != '\\' && y != '\n' && y != '\\'
    requires '\n' !in a && '\\' !in a && '\n' !in b && '\\' !in b
    ensures FormatContent([x] + a + "\n\n\n" + b + [y]) == a + "\n" + b
  {
    var line, tail := [x] + a, b + [y];
    var raw := line + ("\n\n\n" + tail);
    assert raw == [x] + a + "\n\n\n" + b + [y];
    var t := line + ("\n" + tail);
    calc {
      Cleaned(raw);
    == { assert '\\' !in raw; UnescapeNoBackslash(raw); }
      CollapseNewlines(raw);
    == { CollapseAfterLine(line, "\n\n\n" + tail); }
      line + CollapseNewlines("\n\n\n" + tail);
    == { assert "\n\n\n" == NewlineRun(3); CollapseNewlineRun(3, tail); }
      line + ("\n" + CollapseNewlines(tail));
    == { CollapseAfterLine(tail, []); assert tail + [] == tail; }
      t;
    }
    assert t[1..|t| - 1] == a + "\n" + b;
  }

  /** `k` newlines in a row. */
  function NewlineRun(k: nat): (r: string)
    ensures |r| == k && '\\' !in r
  {
    if k == 0 then [] else "\n" + NewlineRun(k - 1)
  }

  /** A run of any number of newlines, followed by the end of the text or by another character, collapses to one newline. */
  lemma {:induction false} CollapseNewlineRun(k: nat, tail: string)
    requires k >= 1 && (tail == [] || tail[0] != '\n')
    ensures CollapseNewlines(NewlineRun(k) + tail) == "\n" + CollapseNewlines(tail)
    decreases k
  {
    var u := NewlineRun(k - 1) + tail;
    Text.AppendAssociative("\n", NewlineRun(k - 1), tail);
    if k == 1 {
      assert u == tail;
      if tail != [] {
        CollapseKeep("\n" + tail);
      }
    } else {
      assert u[0] == '\n';
      CollapseDrop("\n" + u);
      CollapseNewlineRun(k - 1, tail);
    }
  }

  /** The first of two leading newlines is dropped. */
  lemma CollapseDrop(t: string)
    requires |t| >= 2 && t[0] == '\n' && t[1] == '\n'
    ensures CollapseNewlines(t) == CollapseNewlines(t[1..])
  {
  }

  /** A leading character not followed by a second newline is kept. */
  lemma CollapseKeep(t: string)
    requires |t| >= 2 && !(t[0] == '\n' && t[1] == '\n')
    ensures CollapseNewlines(t) == [t[0]] + CollapseNewlines(t[1..])
  {
  }

  /** The text with every newline removed. */
  function DropNewlines(s: string): (r: string)
    ensures '\n' !in r && |r| <= |s|
  {
    if s == [] then [] else (if s[0] == '\n' then [] else [s[0]]) + DropNewlines(s[1..])
  }

  /** The collapse removes only newlines: every other character survives, in its order. */
  lemma {:induction false} CollapseKeepsOthers(s: string)
    ensures DropNewlines(CollapseNewlines(s)) == DropNewlines(s)
    decreases |s|
  {
    if |s| > 1 {
      CollapseKeepsOthers(s[1..]);
      if !(s[0] == '\n' && s[1] == '\n') {
        var r := [s[0]] + CollapseNewlines(s[1..]);
        assert r[0] == s[0] && r[1..] == CollapseNewlines(s[1..]);
      }
    }
  }

  /** The collapse keeps a newline exactly when the text has one. */
  lemma {:induction false} CollapseKeepsNewline(s: string)
    ensures '\n' in CollapseNewlines(s) <==> '\n' in s
    decreases |s|
  {
    if |s| > 1 {
      CollapseKeepsNewline(s[1..]);
      assert s == [s[0]] + s[1..];
      if !(s[0] == '\n' && s[1] == '\n') {
        assert CollapseNewlines(s) == [s[0]] + CollapseNewlines(s[1..]);
      }
    }
  }

  /**
   * Text that is not plain does not survive: a tab in the page is escaped as
   * backslash-t, whose backslash is deleted, so the file holds the letter t.
   */
  lemma FormatContentTab(a: string, b: string)
    requires Plain(a) && Plain(b)
    ensures FormatContent(JsonString(a + "\t" + b)) == FormatContent(JsonString(a + "t" + b))
  {
    var shown := a + "t" + b;
    TabQuoted(a, b);
    PlainConcat(a, "t");
    PlainConcat(a + "t", b);
    PlainQuoted(shown);
  }

  /** The JSON form of plain text is cleaned to the collapsed text between the two quotes. */
  lemma PlainQuoted(s: string)
    requires Plain(s)
    ensures Cleaned(JsonString(s)) == "\"" + CollapseNewlines(s) + "\""
  {
    UnescapeEscaped(s, "\"");
    assert DeleteBackslashes(UnescapeNewlines("\"")) == "\"";
    CleanedQuoted(EscapeString(s), s);
  }

  /** With a tab between two plain texts, the cleaning leaves the letter t in its place. */
  lemma TabQuoted(a: string, b: string)
    requires Plain(a) && Plain(b)
    ensures Cleaned(JsonString(a + "\t" + b)) == "\"" + CollapseNewlines(a + "t" + b) + "\""
  {
    var inner := EscapeString(a) + "\\t" + EscapeString(b);
    EscapeTab(a, b);
    TabCleansToLetter(a, b);
    CleanedQuoted(inner, a + "t" + b);
  }

  /** A tab is escaped as backslash-t between the escaped texts around it. */
  lemma EscapeTab(a: string, b: string)
    ensures JsonString(a + "\t" + b) == "\"" + (EscapeString(a) + "\\t" + EscapeString(b)) + "\""
  {
    EscapeConcat(a, "\t");
    EscapeConcat(a + "\t", b);
    assert EscapeString("\t") == "\\t";
  }

  lemma PlainConcat(a: string, b: string)
    requires Plain(a) && Plain(b)
    ensures Plain(a + b)
  {
    forall k | 0 <= k < |a + b|
      ensures (a + b)[k] != '\\' && ((a + b)[k] >= ' ' || (a + b)[k] == '\n')
    {
      if k >= |a| {
        assert (a + b)[k] == b[k - |a|];
      }
    }
  }

  lemma TabCleansToLetter(a: string, b: string)
    requires Plain(a) && Plain(b)
    ensures DeleteBackslashes(UnescapeNewlines(EscapeString(a) + "\\t" + EscapeString(b) + "\""))
         == (a + "t" + b) + "\""
  {
    var tail := "\\t" + EscapeString(b) + "\"";
    Text.AppendAssociative(EscapeString(a) + "\\t", EscapeString(b), "\"");
    Text.AppendAssociative(EscapeString(a), "\\t", EscapeString(b) + "\"");
    Text.AppendAssociative("\\t", EscapeString(b), "\"");
    UnescapeEscaped(a, tail);
    TabThenPlain(b);
    Text.AppendAssociative(a + "t", b, "\"");
    Text.AppendAssociative(a, "t", b + "\"");
    Text.AppendAssociative("t", b, "\"");
  }

  lemma TabThenPlain(b: string)
    requires Plain(b)
    ensures DeleteBackslashes(UnescapeNewlines("\\t" + EscapeString(b) + "\"")) == "t" + (b + "\"")
  {
    var eb := EscapeString(b) + "\"";
    assert "\\t" + EscapeString(b) + "\"" == "\\t" + eb;
    UnescapeEscapedTab(eb);
    UnescapeEscaped(b, "\"");
    assert DeleteBackslashes(UnescapeNewlines("\"")) == "\"";
  }

  lemma UnescapeEscapedTab(rest: string)
    ensures DeleteBackslashes(UnescapeNewlines("\\t" + rest))
         == "t" + DeleteBackslashes(UnescapeNewlines(rest))
  {
    var x := "\\t" + rest;
    var y := "t" + rest;
    assert x[1..] == y && y[1..] == rest;
    assert UnescapeNewlines(x) == "\\t" + UnescapeNewlines(rest);
    DeleteConcat("\\t", UnescapeNewlines(rest));
  }

  lemma {:induction false} EscapeConcat(a: string, b: string)
    ensures EscapeString(a + b) == EscapeString(a) + EscapeString(b)
  {
    if a == [] {
      assert a + b == b;
    } else {
      assert (a + b)[1..] == a[1..] + b;
      EscapeConcat(a[1..], b);
    }
  }

  /** `c.is_alphanumeric() || c == ' '` keeps the character, anything else becomes `_`. */
  function SanitizeChar(c: char, isAlphanumeric: char -> bool): char {
    if isAlphanumeric(c) || c == ' ' then c else '_'
  }

  /** The character map of `sanitize_filename`. */
  function SanitizeName(name: string, isAlphanumeric: char -> bool): (r: string)
    ensures |r| == |name|
    ensures forall k :: 0 <= k < |r| ==> isAlphanumeric(r[k]) || r[k] == ' ' || r[k] == '_'
    ensures forall k :: 0 <= k < |r| && (isAlphanumeric(name[k]) || name[k] == ' ') ==> r[k] == name[k]
    ensures forall k :: 0 <= k < |r| && !(isAlphanumeric(name[k]) || name[k] == ' ') ==> r[k] == '_'
  {
    seq(|name|, k requires 0 <= k < |name| => SanitizeChar(name[k], isAlphanumeric))
  }

  /** Names already made of allowed characters are left alone, so sanitizing twice is sanitizing once. */
  lemma SanitizeIdempotent(name: string, isAlphanumeric: char -> bool)
    ensures SanitizeName(SanitizeName(name, isAlphanumeric), isAlphanumeric) == SanitizeName(name, isAlphanumeric)
  {
  }

  const DownloadDir: string := "download/"

  /** `sanitize_filename`: the mapped name under `download/`. */
  function SanitizeFilename(name: string, isAlphanumeric: char -> bool): (path: string)
    ensures |path| == |DownloadDir| + |name|
    ensures path[..|DownloadDir|] == DownloadDir
    ensures forall k :: |DownloadDir| <= k < |path| ==> isAlphanumeric(path[k]) || path[k] == ' ' || path[k] == '_'
  {
    DownloadDir + SanitizeName(name, isAlphanumeric)
  }

  /** The file a chapter is saved to: `format!("{}.md", sanitize_filename(name))`. */
  function ChapterFile(name: string, isAlphanumeric: char -> bool): (path: string)
    ensures |path| == |name| + 12
  {
    SanitizeFilename(name, isAlphanumeric) + ".md"
  }

  /** The name is mapped character by character, so the map of a concatenation is the concatenation of the maps. */
  lemma SanitizeConcat(a: string, b: string, isAlphanumeric: char -> bool)
    ensures SanitizeName(a + b, isAlphanumeric) == SanitizeName(a, isAlphanumeric) + SanitizeName(b, isAlphanumeric)
  {
  }

  /** A name of letters, digits and spaces only is left as it is. */
  lemma SanitizeKept(name: string, isAlphanumeric: char -> bool)
    requires forall k :: 0 <= k < |name| ==> isAlphanumeric(name[k]) || name[k] == ' '
    ensures SanitizeName(name, isAlphanumeric) == name
  {
  }

  /** Two replaced characters, each after a piece that is kept. */
  lemma SanitizeAroundTwo(a: string, c: char, b: string, d: char, isAlphanumeric: char -> bool)
    requires SanitizeName(a, isAlphanumeric) == a && SanitizeName(b, isAlphanumeric) == b
    requires !isAlphanumeric(c) && c != ' ' && !isAlphanumeric(d) && d != ' '
    ensures SanitizeName(a + [c] + b + [d], isAlphanumeric) == a + "_" + b + "_"
  {
    SanitizeConcat(a, [c], isAlphanumeric);
    SanitizeConcat(a + [c], b, isAlphanumeric);
    SanitizeConcat(a + [c] + b, [d], isAlphanumeric);
  }

  /** The example name and its mapped form, spelled out from their pieces. */
  lemma ExampleSpelling()
    ensures "Chương 1" + [':'] + " Mở đầu" + ['!'] == "Chương 1: Mở đầu!"
    ensures "Chương 1" + "_" + " Mở đầu" + "_" == "Chương 1_ Mở đầu_"
  {
  }

  /** Punctuation becomes `_`, spaces and letters stay. */
  lemma SanitizeExample(isAlphanumeric: char -> bool)
    requires isAlphanumeric('C') && isAlphanumeric('h') && isAlphanumeric('ư') && isAlphanumeric('ơ')
    requires isAlphanumeric('n') && isAlphanumeric('g') && isAlphanumeric('1') && isAlphanumeric('M')
    requires isAlphanumeric('ở') && isAlphanumeric('đ') && isAlphanumeric('ầ') && isAlphanumeric('u')
    requires !isAlphanumeric(':') && !isAlphanumeric('!')
    ensures SanitizeFilename("Chương 1: Mở đầu!", isAlphanumeric) == DownloadDir + "Chương 1_ Mở đầu_"
  {
    var a, b := "Chương 1", " Mở đầu";
    SanitizeKept(a, isAlphanumeric);
    SanitizeKept(b, isAlphanumeric);
    SanitizeAroundTwo(a, ':', b, '!', isAlphanumeric);
    ExampleSpelling();
  }
}
