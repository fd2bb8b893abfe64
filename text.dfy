/**
 * String helpers that the program takes from Rust's standard library:
 * `char::is_whitespace`, `str::trim`, `str::trim_matches`, `str::find`,
 * `str::lines` and the decimal formatting of a `usize`.
 * A Rust `String` is a sequence of Unicode scalar values here.
 */
module Text {
  import opened Results

  /** The Unicode White_Space property, which `char::is_whitespace` and `str::trim` use. */
  predicate IsWhitespace(c: char) {
    ('\t' <= c <= '\r') || c == ' ' || c == '\U{85}' || c == '\U{A0}' || c == '\U{1680}'
    || ('\U{2000}' <= c <= '\U{200A}') || c == '\U{2028}' || c == '\U{2029}'
    || c == '\U{202F}' || c == '\U{205F}' || c == '\U{3000}'
  }

  predicate IsComma(c: char) { c == ',' }

  /** Drops every leading character that satisfies `p` (`trim_start_matches`). */
  function TrimStartBy(s: string, p: char -> bool): (r: string)
    ensures |r| <= |s|
    ensures r != [] ==> !p(r[0])
  {
    if s != [] && p(s[0]) then TrimStartBy(s[1..], p) else s
  }

  /** What `TrimStartBy` keeps is a suffix, and all it drops matches `p`. */
  lemma {:induction false} TrimStartSlice(s: string, p: char -> bool)
    ensures var r := TrimStartBy(s, p);
      && r == s[|s| - |r|..]
      && forall i :: 0 <= i < |s| - |r| ==> p(s[i])
    decreases |s|
  {
    if s != [] && p(s[0]) {
      TrimStartSlice(s[1..], p);
    }
  }

  /** Drops every trailing character that satisfies `p` (`trim_end_matches`). */
  function TrimEndBy(s: string, p: char -> bool): (r: string)
    ensures |r| <= |s|
    ensures r != [] ==> !p(r[|r| - 1])
  {
    if s != [] && p(s[|s| - 1]) then TrimEndBy(s[..|s| - 1], p) else s
  }

  /** What `TrimEndBy` keeps is a prefix, and all it drops matches `p`. */
  lemma {:induction false} TrimEndSlice(s: string, p: char -> bool)
    ensures var r := TrimEndBy(s, p);
      && r == s[..|r|]
      && forall i :: |r| <= i < |s| ==> p(s[i])
    decreases |s|
  {
    if s != [] && p(s[|s| - 1]) {
      TrimEndSlice(s[..|s| - 1], p);
    }
  }

  /** `trim_matches(p)`: both ends at once. */
  function TrimBy(s: string, p: char -> bool): (r: string)
    ensures |r| <= |s|
    ensures r != [] ==> !p(r[0]) && !p(r[|r| - 1])
  {
    var t := TrimStartBy(s, p);
    TrimEndSlice(t, p);
    TrimEndBy(t, p)
  }

  /** The trimmed text is a piece of the original with only matching characters cut from either side. */
  lemma TrimBySlice(s: string, p: char -> bool) returns (i: nat, j: nat)
    ensures i <= j <= |s| && TrimBy(s, p) == s[i..j]
    ensures forall k :: 0 <= k < i ==> p(s[k])
    ensures forall k :: j <= k < |s| ==> p(s[k])
  {
    var t := TrimStartBy(s, p);
    var r := TrimEndBy(t, p);
    TrimStartSlice(s, p);
    TrimEndSlice(t, p);
    i, j := |s| - |t|, |s| - |t| + |r|;
    assert r == s[i..j];
  }

  /** `str::trim`. */
  function Trim(s: string): (r: string)
    ensures r != [] ==> !IsWhitespace(r[0]) && !IsWhitespace(r[|r| - 1])
  {
    TrimBy(s, IsWhitespace)
  }

  /** Trimming only removes characters, so one absent from the text is absent from the result. */
  lemma TrimByNotIn(s: string, p: char -> bool, c: char)
    requires c !in s
    ensures c !in TrimBy(s, p)
  {
    var r := TrimBy(s, p);
    var i, j := TrimBySlice(s, p);
    forall k | 0 <= k < |r|
      ensures r[k] != c
    {
      assert r[k] == s[i + k];
    }
  }

  /** A text whose two ends do not match `p` is left as it is. */
  lemma TrimByUnchanged(s: string, p: char -> bool)
    requires s != [] && !p(s[0]) && !p(s[|s| - 1])
    ensures TrimBy(s, p) == s
  {
    assert TrimStartBy(s, p) == s;
  }

  /** Trimming removes only what `p` matches, so a second trim changes nothing. */
  lemma TrimByIdempotent(s: string, p: char -> bool)
    ensures TrimBy(TrimBy(s, p), p) == TrimBy(s, p)
  {
    var r := TrimBy(s, p);
    assert TrimStartBy(r, p) == r;
    assert TrimEndBy(r, p) == r;
  }

  /** A string made only of characters `p` matches trims to nothing, and nothing else does. */
  lemma TrimByEmpty(s: string, p: char -> bool)
    ensures TrimBy(s, p) == [] <==> forall k :: 0 <= k < |s| ==> p(s[k])
  {
    if forall k :: 0 <= k < |s| ==> p(s[k]) {
      TrimStartSlice(s, p);
    } else {
      var k :| 0 <= k < |s| && !p(s[k]);
      KeptByTrim(s, p, k);
    }
  }

  /** A character `p` does not match survives the trim. */
  lemma KeptByTrim(s: string, p: char -> bool, k: nat)
    requires k < |s| && !p(s[k])
    ensures TrimBy(s, p) != []
  {
    var t := TrimStartBy(s, p);
    TrimStartSlice(s, p);
    TrimEndSlice(t, p);
    var d := |s| - |t|;
    assert k >= d;
    assert t[k - d] == s[k];
    var e := TrimEndBy(t, p);
    assert |e| > k - d;
  }

  /** First position of `c` in `s`, or `None` (`str::find` with a `char` pattern). */
  function Find(s: string, c: char): (r: Option<nat>)
    ensures r.None? <==> c !in s
    ensures r.Some? ==> r.value < |s| && s[r.value] == c && c !in s[..r.value]
    ensures r.Some? ==> forall j :: 0 <= j < r.value ==> s[j] != c
  {
    if s == [] then None
    else if s[0] == c then Some(0)
    else match Find(s[1..], c)
      case None => None
      case Some(k) => Some(k + 1)
  }

  /** One line as `str::lines` yields it: the `\n` is gone and so is one `\r` right before it. */
  function StripCarriageReturn(line: string): string {
    if line != [] && line[|line| - 1] == '\r' then line[..|line| - 1] else line
  }

  /**
   * `str::lines`: the pieces between `\n` characters, each without its line
   * ending; a final `\n` does not start an empty last line, and a final piece
   * without `\n` keeps a trailing `\r`.
   */
  function Lines(s: string): (ls: seq<string>)
    ensures forall l :: l in ls ==> '\n' !in l
    ensures s == [] <==> ls == []
    decreases |s|
  {
    if s == [] then []
    else match Find(s, '\n')
      case None => [s]
      case Some(k) => [StripCarriageReturn(s[..k])] + Lines(s[k + 1..])
  }

  /** Lines joined back with `\n` give the text again, when it has no `\r` and does not end in `\n`. */
  lemma {:induction false} LinesJoin(s: string)
    requires '\r' !in s && (s == [] || s[|s| - 1] != '\n')
    ensures JoinLines(Lines(s)) == s
    decreases |s|
  {
    if s != [] {
      match Find(s, '\n')
      case None =>
      case Some(k) =>
        var rest := s[k + 1..];
        assert s == s[..k] + "\n" + rest;
        assert '\r' !in s[..k] && '\r' !in rest;
        assert rest[|rest| - 1] == s[|s| - 1];
        LinesJoin(rest);
    }
  }

  /**
   * Non-empty lines without `\n` and not ending in `\r`, joined with `\n`,
   * are split back into the same lines.
   */
  lemma {:induction false} LinesOfJoin(ls: seq<string>)
    requires forall k :: 0 <= k < |ls| ==> ls[k] != [] && '\n' !in ls[k] && ls[k][|ls[k]| - 1] != '\r'
    ensures Lines(JoinLines(ls)) == ls
    decreases |ls|
  {
    if |ls| == 1 {
      assert JoinLines(ls) == ls[0];
    } else if |ls| > 1 {
      LinesOfJoin(ls[1..]);
      LinesCons(ls[0], JoinLines(ls[1..]));
      assert ls == [ls[0]] + ls[1..];
    }
  }

  /** A line with its ending in front of more text splits off as the first line. */
  lemma LinesCons(first: string, rest: string)
    requires '\n' !in first && (first == [] || first[|first| - 1] != '\r')
    ensures Lines(first + "\n" + rest) == [first] + Lines(rest)
  {
    var s := first + "\n" + rest;
    forall j | 0 <= j < |first|
      ensures s[j] != '\n'
    {
      assert s[j] == first[j];
    }
    assert s[|first|] == '\n';
    assert Find(s, '\n') == Some(|first|);
    assert s[..|first|] == first && s[|first| + 1..] == rest;
  }

  /** Lines separated by `\n`. */
  function JoinLines(ls: seq<string>): string {
    if ls == [] then [] else if |ls| == 1 then ls[0] else ls[0] + "\n" + JoinLines(ls[1..])
  }

  function DigitChar(d: nat): (c: char)
    requires d < 10
    ensures '0' <= c <= '9'
  {
    ('0' as int + d) as char
  }

  function DigitValue(c: char): nat
    requires '0' <= c <= '9'
  {
    c as int - '0' as int
  }

  /** `format!("{}", n)` for an unsigned integer: its decimal digits, no sign, no leading zero. */
  function Decimal(n: nat): (s: string)
    ensures s != [] && forall k :: 0 <= k < |s| ==> '0' <= s[k] <= '9'
    ensures |s| > 1 ==> s[0] != '0'
  {
    if n < 10 then [DigitChar(n)] else Decimal(n / 10) + [DigitChar(n % 10)]
  }

  /** Reads a run of decimal digits back as a number. */
  function DecimalValue(s: string): nat
    requires forall k :: 0 <= k < |s| ==> '0' <= s[k] <= '9'
  {
    if s == [] then 0 else 10 * DecimalValue(s[..|s| - 1]) + DigitValue(s[|s| - 1])
  }

  lemma {:induction false} DecimalRoundTrip(n: nat)
    ensures DecimalValue(Decimal(n)) == n
  {
    var s := Decimal(n);
    if n >= 10 {
      DecimalRoundTrip(n / 10);
      assert s[..|s| - 1] == Decimal(n / 10);
      assert DigitValue(s[|s| - 1]) == n % 10;
      assert n == 10 * (n / 10) + n % 10;
    }
  }

  /** Different numbers are written differently. */
  lemma DecimalInjective(m: nat, n: nat)
    requires m != n
    ensures Decimal(m) != Decimal(n)
  {
    DecimalRoundTrip(m);
    DecimalRoundTrip(n);
  }

  /** Concatenation is associative; stated once so that proofs can name the regrouping. */
  lemma AppendAssociative<T>(a: seq<T>, b: seq<T>, c: seq<T>)
    ensures (a + b) + c == a + (b + c)
  {
  }
}
