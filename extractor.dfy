/**
 * The metadata of one report, derived from its file name and text:
 * `extractTitle`, `extractType`, `extractPreview` and `formatFileSize` of
 * `netlify/functions/reports.js`. Each regular expression of the source is
 * written out as a scan over positions that follows how ECMAScript's
 * matcher tries positions from left to right, greedy runs first.
 */
module Extractor {
  import opened Wrappers
  import opened JsString

  // ----------------------------------------------------------------------
  // Regular-expression building blocks
  // ----------------------------------------------------------------------

  /** Where `^` matches in multiline mode. */
  predicate IsLineStart(s: string, p: nat)
    requires p <= |s|
  {
    p == 0 || IsLineTerminator(s[p - 1])
  }

  /** How far a greedy `\s*` or `\s+` starting at `i` reaches. */
  function WhitespaceEnd(s: string, i: nat): (e: nat)
    requires i <= |s|
    ensures i <= e <= |s|
    ensures forall k :: i <= k < e ==> IsWhitespace(s[k])
    ensures e == |s| || !IsWhitespace(s[e])
    decreases |s| - i
  {
    if i < |s| && IsWhitespace(s[i]) then WhitespaceEnd(s, i + 1) else i
  }

  /** How far a greedy `.+` or `.*` starting at `i` reaches: the end of the line. */
  function LineEnd(s: string, i: nat): (e: nat)
    requires i <= |s|
    ensures i <= e <= |s|
    ensures forall k :: i <= k < e ==> !IsLineTerminator(s[k])
    ensures e == |s| || IsLineTerminator(s[e])
    decreases |s| - i
  {
    if i < |s| && !IsLineTerminator(s[i]) then LineEnd(s, i + 1) else i
  }

  /** How far a greedy run of the character `c` starting at `i` reaches. */
  function CharRunEnd(s: string, i: nat, c: char): (e: nat)
    requires i <= |s|
    ensures i <= e <= |s|
    ensures forall k :: i <= k < e ==> s[k] == c
    ensures e == |s| || s[e] != c
    decreases |s| - i
  {
    if i < |s| && s[i] == c then CharRunEnd(s, i + 1, c) else i
  }

  /** How far a greedy `\d+` starting at `i` reaches. */
  function DigitRunEnd(s: string, i: nat): (e: nat)
    requires i <= |s|
    ensures i <= e <= |s|
    ensures forall k :: i <= k < e ==> IsAsciiDigit(s[k])
    ensures e == |s| || !IsAsciiDigit(s[e])
    decreases |s| - i
  {
    if i < |s| && IsAsciiDigit(s[i]) then DigitRunEnd(s, i + 1) else i
  }

  /** The first index at or after `i` holding `c`, or `|s|`: where a greedy `[^c]*` stops. */
  function NextChar(s: string, i: nat, c: char): (k: nat)
    requires i <= |s|
    ensures i <= k <= |s|
    ensures forall j :: i <= j < k ==> s[j] != c
    ensures k == |s| || s[k] == c
    decreases |s| - i
  {
    if i == |s| || s[i] == c then i else NextChar(s, i + 1, c)
  }

  /** The largest `j` with `lo <= j < hi` and `s[j] == c`, if any. */
  function LastCharBefore(s: string, lo: nat, hi: nat, c: char): (r: Option<nat>)
    requires lo <= hi <= |s|
    ensures r.Some? ==> lo <= r.value < hi && s[r.value] == c
    ensures r.Some? ==> forall k :: r.value < k < hi ==> s[k] != c
    ensures r.None? ==> forall k :: lo <= k < hi ==> s[k] != c
    decreases hi - lo
  {
    if hi == lo then None
    else if s[hi - 1] == c then Some(hi - 1)
    else LastCharBefore(s, lo, hi - 1, c)
  }

  /** The largest `j` with `lo <= j < hi` where `s[j]` is not a line terminator, if any. */
  function LastLineCharBefore(s: string, lo: nat, hi: nat): (r: Option<nat>)
    requires lo <= hi <= |s|
    ensures r.Some? ==> lo <= r.value < hi && !IsLineTerminator(s[r.value])
    ensures r.Some? ==> forall k :: r.value < k < hi ==> IsLineTerminator(s[k])
    ensures r.None? ==> forall k :: lo <= k < hi ==> IsLineTerminator(s[k])
    decreases hi - lo
  {
    if hi == lo then None
    else if !IsLineTerminator(s[hi - 1]) then Some(hi - 1)
    else LastLineCharBefore(s, lo, hi - 1)
  }

  /** Where a lazy `.*?` that starts at `i` and is followed by `d` stops: the first occurrence of `d` before the line ends. */
  function LazyClose(s: string, i: nat, d: string): (r: Option<nat>)
    requires i <= |s|
    ensures r.Some? ==> i <= r.value && OccursAt(s, d, r.value)
    ensures r.Some? ==> forall k :: i <= k < r.value ==> !IsLineTerminator(s[k])
    decreases |s| - i
  {
    if OccursAt(s, d, i) then Some(i)
    else if i == |s| || IsLineTerminator(s[i]) then None
    else LazyClose(s, i + 1, d)
  }

  // ----------------------------------------------------------------------
  // extractTitle
  // ----------------------------------------------------------------------

  /**
   * The capture of `#\s+(.+)$` tried at position `p`. The greedy `\s+`
   * may run over line breaks; when it reaches the end of the text, it
   * gives back characters until `.+` can take one that is not a line
   * terminator.
   */
  function HeadingCaptureAt(s: string, p: nat): Option<string>
    requires p <= |s|
  {
    if p < |s| && s[p] == '#' then
      var q := WhitespaceEnd(s, p + 1);
      if q == p + 1 then None
      else if q < |s| then Some(s[q..LineEnd(s, q)])
      else match LastLineCharBefore(s, p + 2, q)
        case None => None
        case Some(j) => Some(s[j..LineEnd(s, j)])
    else None
  }

  /** The capture of the first match of `/^#\s+(.+)$/m` at or after `p`. */
  function FirstHeading(s: string, p: nat): Option<string>
    requires p <= |s|
    decreases |s| - p
  {
    if IsLineStart(s, p) && HeadingCaptureAt(s, p).Some? then HeadingCaptureAt(s, p)
    else if p == |s| then None
    else FirstHeading(s, p + 1)
  }

  /** The five one-character pictographs 📊 📈 📉 🎯 🔍. */
  const SinglePictographs: set<char> := {'\U{1F4CA}', '\U{1F4C8}', '\U{1F4C9}', '\U{1F3AF}', '\U{1F50D}'}

  /** The two-character pictograph ⚠️ (warning sign and variation selector 16). */
  const WarningSign: string := "\U{26A0}\U{FE0F}"

  /** `t.replace(/📊|📈|📉|🎯|⚠️|🔍/g, '')`. */
  function RemovePictographs(t: string): (r: string)
    ensures |r| <= |t|
    ensures forall c :: c in r ==> c in t && c !in SinglePictographs
  {
    if |t| == 0 then ""
    else if t[0] in SinglePictographs then RemovePictographs(t[1..])
    else if |t| >= 2 && t[..2] == WarningSign then RemovePictographs(t[2..])
    else [t[0]] + RemovePictographs(t[1..])
  }

  /** The file-name pattern `/^\d{8}-(.+)\.md$/`: eight digits, a dash, a label on one line, `.md`. */
  predicate IsDatedName(f: string) {
    && |f| >= 13
    && (forall k :: 0 <= k < 8 ==> IsAsciiDigit(f[k]))
    && f[8] == '-'
    && EndsWith(f, ".md")
    && (forall k :: 9 <= k < |f| - 3 ==> !IsLineTerminator(f[k]))
  }

  /** The title taken from the file name when the text has no heading. */
  function TitleFromName(f: string): string {
    if IsDatedName(f) then ReplaceFirst(f[9..|f| - 3], "专报-", "")
    else ReplaceFirst(f, ".md", "")
  }

  /** `extractTitle(content, filename)`. */
  function ExtractTitle(content: string, filename: string): string {
    match FirstHeading(content, 0)
    case Some(h) => Trim(RemovePictographs(h))
    case None => TitleFromName(filename)
  }

  // ----------------------------------------------------------------------
  // extractType
  // ----------------------------------------------------------------------

  /** The categories, in the order `extractType` tests them. */
  const Categories: seq<string> := ["专报", "周报", "月报", "分析"]

  /** The label of a report whose name has no category keyword. */
  const GenericCategory: string := "报告"

  /**
   * `extractType(filename)`: the first category, in the order above, whose
   * keyword the file name contains, and the generic label when it contains
   * none of them.
   */
  function ExtractType(filename: string): (r: string)
    ensures r == GenericCategory <==> forall i :: 0 <= i < |Categories| ==> !Includes(filename, Categories[i])
    ensures r != GenericCategory ==> r in Categories && Includes(filename, r)
    ensures forall i, j :: 0 <= i < j < |Categories| && r == Categories[j] ==> !Includes(filename, Categories[i])
  {
    CategoriesDistinct();
    if Includes(filename, Categories[0]) then Categories[0]
    else if Includes(filename, Categories[1]) then Categories[1]
    else if Includes(filename, Categories[2]) then Categories[2]
    else if Includes(filename, Categories[3]) then Categories[3]
    else GenericCategory
  }

  /** The labels differ from one another, so each result names one category. */
  lemma CategoriesDistinct()
    ensures forall i, j :: 0 <= i < j < |Categories| ==> Categories[i] != Categories[j]
    ensures GenericCategory !in Categories
  {
    assert forall i :: 0 <= i < |Categories| ==> Categories[i][0] == "专周月分"[i];
    assert GenericCategory[0] !in "专周月分";
  }

  // ----------------------------------------------------------------------
  // extractPreview
  // ----------------------------------------------------------------------

  /** `.replace(/^#+\s+/gm, '')`, from position `i` on. */
  function StripHeadingMarks(s: string, i: nat): string
    requires i <= |s|
    decreases |s| - i
  {
    if i == |s| then ""
    else if IsLineStart(s, i) && s[i] == '#' && WhitespaceEnd(s, CharRunEnd(s, i, '#')) > CharRunEnd(s, i, '#') then
      StripHeadingMarks(s, WhitespaceEnd(s, CharRunEnd(s, i, '#')))
    else [s[i]] + StripHeadingMarks(s, i + 1)
  }

  /** `.replace(/D(.*?)D/g, '$1')` for the delimiter `D` (`**` or `*`), from position `i` on. */
  function StripPaired(s: string, i: nat, d: string): string
    requires i <= |s| && |d| > 0
    decreases |s| - i
  {
    if i == |s| then ""
    else if OccursAt(s, d, i) then
      match LazyClose(s, i + |d|, d)
      case Some(k) => s[i + |d|..k] + StripPaired(s, k + |d|, d)
      case None => [s[i]] + StripPaired(s, i + 1, d)
    else [s[i]] + StripPaired(s, i + 1, d)
  }

  /** `.replace(/\[([^\]]+)\]\([^)]+\)/g, '$1')`, from position `i` on. */
  function StripLinks(s: string, i: nat): string
    requires i <= |s|
    decreases |s| - i
  {
    if i == |s| then ""
    else if s[i] == '[' then
      var k := NextChar(s, i + 1, ']');
      if i + 1 < k < |s| - 1 && s[k + 1] == '(' then
        var m := NextChar(s, k + 2, ')');
        if k + 2 < m < |s| then s[i + 1..k] + StripLinks(s, m + 1)
        else [s[i]] + StripLinks(s, i + 1)
      else [s[i]] + StripLinks(s, i + 1)
    else [s[i]] + StripLinks(s, i + 1)
  }

  const Fence: string := "```"

  /** `.replace(/```[\s\S]*?```/g, '')`, from position `i` on. */
  function StripFences(s: string, i: nat): string
    requires i <= |s|
    decreases |s| - i
  {
    if i == |s| then ""
    else if OccursAt(s, Fence, i) then
      match IndexOf(s, Fence, i + 3)
      case Some(k) => StripFences(s, k + 3)
      case None => [s[i]] + StripFences(s, i + 1)
    else [s[i]] + StripFences(s, i + 1)
  }

  /** `.replace(/`([^`]+)`/g, '$1')`, from position `i` on. */
  function StripInlineCode(s: string, i: nat): string
    requires i <= |s|
    decreases |s| - i
  {
    if i == |s| then ""
    else if s[i] == '`' && i + 1 < NextChar(s, i + 1, '`') < |s| then
      s[i + 1..NextChar(s, i + 1, '`')] + StripInlineCode(s, NextChar(s, i + 1, '`') + 1)
    else [s[i]] + StripInlineCode(s, i + 1)
  }

  predicate IsBullet(c: char) {
    c == '-' || c == '*' || c == '+'
  }

  /** `.replace(/^\s*[-*+]\s+/gm, '')`, from position `i` on. */
  function StripBullets(s: string, i: nat): string
    requires i <= |s|
    decreases |s| - i
  {
    if i == |s| then ""
    else
      var w := WhitespaceEnd(s, i);
      if IsLineStart(s, i) && w < |s| && IsBullet(s[w]) && WhitespaceEnd(s, w + 1) > w + 1 then
        StripBullets(s, WhitespaceEnd(s, w + 1))
      else [s[i]] + StripBullets(s, i + 1)
  }

  /** `.replace(/^\s*\d+\.\s+/gm, '')`, from position `i` on. */
  function StripNumbering(s: string, i: nat): string
    requires i <= |s|
    decreases |s| - i
  {
    if i == |s| then ""
    else
      var w := WhitespaceEnd(s, i);
      var d := DigitRunEnd(s, w);
      if IsLineStart(s, i) && w < d < |s| && s[d] == '.' && WhitespaceEnd(s, d + 1) > d + 1 then
        StripNumbering(s, WhitespaceEnd(s, d + 1))
      else [s[i]] + StripNumbering(s, i + 1)
  }

  /** `.replace(/\n\s*\n/g, '\n')`, from position `i` on: a blank stretch between two newlines becomes one newline. */
  function CollapseBlankLines(s: string, i: nat): string
    requires i <= |s|
    decreases |s| - i
  {
    if i == |s| then ""
    else if s[i] == '\n' then
      match LastCharBefore(s, i + 1, WhitespaceEnd(s, i + 1), '\n')
      case Some(k) => "\n" + CollapseBlankLines(s, k + 1)
      case None => "\n" + CollapseBlankLines(s, i + 1)
    else [s[i]] + CollapseBlankLines(s, i + 1)
  }

  /** The markup-stripping chain of `extractPreview`, in the source's order, up to the blank-line collapse. */
  function StripMarkup(content: string): string {
    var t1 := StripHeadingMarks(content, 0);
    var t2 := StripPaired(t1, 0, "**");
    var t3 := StripPaired(t2, 0, "*");
    var t4 := StripLinks(t3, 0);
    var t5 := StripFences(t4, 0);
    var t6 := StripInlineCode(t5, 0);
    var t7 := StripBullets(t6, 0);
    var t8 := StripNumbering(t7, 0);
    CollapseBlankLines(t8, 0)
  }

  /** `.filter(line => line.trim().length > 0)`. */
  function NonBlank(lines: seq<string>): (r: seq<string>)
    ensures |r| <= |lines|
    ensures forall i :: 0 <= i < |r| ==> Trim(r[i]) != ""
  {
    if |lines| == 0 then []
    else if Trim(lines[0]) == "" then NonBlank(lines[1..])
    else [lines[0]] + NonBlank(lines[1..])
  }

  /** A character that no line holds is in no kept line either. */
  lemma {:induction false} NonBlankKeepsAbsent(lines: seq<string>, c: char)
    requires forall i :: 0 <= i < |lines| ==> c !in lines[i]
    ensures forall i :: 0 <= i < |NonBlank(lines)| ==> c !in NonBlank(lines)[i]
    decreases |lines|
  {
    if |lines| > 0 {
      NonBlankKeepsAbsent(lines[1..], c);
    }
  }

  /** The filter works line by line: it keeps exactly the non-blank lines, in their order. */
  lemma {:induction false} NonBlankAppend(xs: seq<string>, ys: seq<string>)
    ensures NonBlank(xs + ys) == NonBlank(xs) + NonBlank(ys)
    decreases |xs|
  {
    if |xs| == 0 {
      assert xs + ys == ys;
    } else {
      assert (xs + ys)[1..] == xs[1..] + ys;
      NonBlankAppend(xs[1..], ys);
    }
  }

  /** The longest preview kept before the ellipsis is added. */
  const PreviewLimit: nat := 200

  const Ellipsis: string := "..."

  /** `t.length > 200 ? t.substring(0, 200) + '...' : t`. */
  function Truncate(t: string): (r: string)
    ensures |r| <= PreviewLimit + |Ellipsis|
    ensures |t| <= PreviewLimit ==> r == t
    ensures forall c :: c in r ==> c in t || c in Ellipsis
    ensures |t| > PreviewLimit ==> |r| == PreviewLimit + |Ellipsis| && r[..PreviewLimit] == t[..PreviewLimit] && r[PreviewLimit..] == Ellipsis
  {
    if |t| > PreviewLimit then t[..PreviewLimit] + Ellipsis else t
  }

  /** `.slice(0, 3)`. */
  function TakeThree(xs: seq<string>): (r: seq<string>)
    ensures |r| == if |xs| < 3 then |xs| else 3
    ensures forall i :: 0 <= i < |r| ==> r[i] == xs[i]
  {
    if |xs| > 3 then xs[..3] else xs
  }

  /** The lines kept for the preview: the first three non-blank lines of `t`, split at `\n`. */
  function PreviewLines(t: string): (ls: seq<string>)
    ensures |ls| <= 3
    ensures forall i :: 0 <= i < |ls| ==> Trim(ls[i]) != "" && '\n' !in ls[i]
  {
    var lines := Split(t, '\n');
    var kept := NonBlank(lines);
    NonBlankKeepsAbsent(lines, '\n');
    TakeThree(kept)
  }

  /** `extractPreview(content)`. */
  function ExtractPreview(content: string): (r: string)
    ensures |r| <= PreviewLimit + |Ellipsis|
    ensures '\n' !in r
  {
    var text := Trim(StripMarkup(content));
    var ls := PreviewLines(text);
    JoinHasNoNewline(ls);
    Truncate(Join(ls, " "))
  }

  lemma {:induction false} JoinHasNoNewline(ls: seq<string>)
    requires forall i :: 0 <= i < |ls| ==> '\n' !in ls[i]
    ensures '\n' !in Join(ls, " ")
    decreases |ls|
  {
    if |ls| > 1 {
      JoinHasNoNewline(ls[1..]);
    }
  }

  // ----------------------------------------------------------------------
  // formatFileSize
  // ----------------------------------------------------------------------

  function Pow1024(i: nat): (r: nat)
    ensures r >= 1
  {
    if i == 0 then 1 else 1024 * Pow1024(i - 1)
  }

  /** `Math.floor(Math.log(bytes) / Math.log(1024))`, computed exactly: the power of 1024 that `bytes` reaches. */
  function UnitIndex(bytes: nat): (i: nat)
    requires bytes > 0
    ensures Pow1024(i) <= bytes < Pow1024(i + 1)
  {
    if bytes < 1024 then 0
    else
      var j := UnitIndex(bytes / 1024);
      assert Pow1024(j + 1) == 1024 * Pow1024(j);
      assert Pow1024(j + 2) == 1024 * Pow1024(j + 1);
      1 + j
  }

  /**
   * `(bytes / scale).toFixed(1)` as a count of tenths: the nearest whole
   * number of tenths, a tie going to the larger one.
   */
  function RoundToTenths(bytes: nat, scale: nat): (n: nat)
    requires scale > 0
    ensures n * (2 * scale) <= 20 * bytes + scale < n * (2 * scale) + 2 * scale
  {
    (20 * bytes + scale) / (2 * scale)
  }

  /** `String(parseFloat(x))` for the text `x` of `n` tenths: a whole number drops its `.0`. */
  function TenthsText(n: nat): string {
    NatToString(n / 10) + (if n % 10 == 0 then "" else "." + [DigitChar(n % 10)])
  }

  const Units: seq<string> := ["B", "KB", "MB", "GB"]

  /** `sizes[i]`, which JavaScript turns into the text `undefined` past the end of the table. */
  function UnitName(i: nat): string {
    if i < |Units| then Units[i] else "undefined"
  }

  /** `formatFileSize(bytes)`. */
  function FormatFileSize(bytes: nat): string {
    if bytes == 0 then "0 B"
    else
      var i := UnitIndex(bytes);
      TenthsText(RoundToTenths(bytes, Pow1024(i))) + " " + UnitName(i)
  }

  // ----------------------------------------------------------------------
  // Properties of the title
  // ----------------------------------------------------------------------

  /**
   * A `#` opens a heading only at a line start and only when whitespace
   * follows it; the search moves past every other position.
   */
  lemma {:induction false} FirstHeadingSkips(s: string, p: nat, q: nat)
    requires p <= q <= |s|
    requires forall k :: p <= k < q && IsLineStart(s, k) && s[k] == '#' ==> k + 1 == |s| || !IsWhitespace(s[k + 1])
    ensures FirstHeading(s, p) == FirstHeading(s, q)
    decreases q - p
  {
    if p < q {
      if IsLineStart(s, p) && s[p] == '#' {
        assert WhitespaceEnd(s, p + 1) == p + 1;
      }
      FirstHeadingSkips(s, p + 1, q);
    }
  }

  /** A text in which no line starts with `#` and whitespace has no heading. */
  lemma NoHeading(s: string)
    requires forall k :: 0 <= k < |s| && IsLineStart(s, k) && s[k] == '#' ==> k + 1 == |s| || !IsWhitespace(s[k + 1])
    ensures FirstHeading(s, 0) == None
  {
    FirstHeadingSkips(s, 0, |s|);
  }

  /**
   * The title of a text whose first heading starts at `p`: every earlier
   * line that starts with `#` has no whitespace after it; at `p` comes
   * `#`, a run of whitespace up to `q` (which may include line breaks),
   * then a line of text from `q` to `e` that starts with a visible
   * character. The title is that line, pictographs removed and trimmed.
   */
  lemma HeadingTitle(s: string, p: nat, q: nat, e: nat, filename: string)
    requires p + 1 < q < e <= |s|
    requires forall k :: 0 <= k < p && IsLineStart(s, k) && s[k] == '#' ==> !IsWhitespace(s[k + 1])
    requires s[p] == '#' && IsLineStart(s, p)
    requires forall k :: p + 1 <= k < q ==> IsWhitespace(s[k])
    requires !IsWhitespace(s[q])
    requires forall k :: q <= k < e ==> !IsLineTerminator(s[k])
    requires e == |s| || IsLineTerminator(s[e])
    ensures ExtractTitle(s, filename) == Trim(RemovePictographs(s[q..e]))
  {
    FirstHeadingSkips(s, 0, p);
    HeadingAt(s, p, q, e);
  }

  /** The heading opened at `p` captures the line from `q` to `e`. */
  lemma HeadingAt(s: string, p: nat, q: nat, e: nat)
    requires p + 1 < q < e <= |s|
    requires s[p] == '#' && IsLineStart(s, p)
    requires forall k :: p + 1 <= k < q ==> IsWhitespace(s[k])
    requires !IsWhitespace(s[q])
    requires forall k :: q <= k < e ==> !IsLineTerminator(s[k])
    requires e == |s| || IsLineTerminator(s[e])
    ensures FirstHeading(s, p) == Some(s[q..e])
  {
    assert WhitespaceEnd(s, p + 1) == q;
    assert LineEnd(s, q) == e;
  }

  /**
   * Pictographs are removed piece by piece: unless the first piece ends in
   * the warning sign's first character (which the second piece could
   * complete), removing from the whole is removing from each piece.
   */
  lemma {:induction false} RemovePictographsAppend(a: string, b: string)
    requires |a| == 0 || a[|a| - 1] != WarningSign[0]
    ensures RemovePictographs(a + b) == RemovePictographs(a) + RemovePictographs(b)
    decreases |a|
  {
    if |a| == 0 {
      assert a + b == b;
    } else if a[0] in SinglePictographs {
      assert (a + b)[1..] == a[1..] + b;
      RemovePictographsAppend(a[1..], b);
    } else if |a| >= 2 && a[..2] == WarningSign {
      assert (a + b)[..2] == a[..2] && (a + b)[2..] == a[2..] + b;
      RemovePictographsAppend(a[2..], b);
    } else {
      assert |a + b| >= 2 ==> (a + b)[..2] != WarningSign by {
        if |a| >= 2 { assert (a + b)[..2] == a[..2]; }
        else if |a + b| >= 2 { assert (a + b)[..2][0] == a[0]; }
      }
      assert (a + b)[1..] == a[1..] + b;
      RemovePictographsAppend(a[1..], b);
      assert [a[0]] + (RemovePictographs(a[1..]) + RemovePictographs(b))
          == ([a[0]] + RemovePictographs(a[1..])) + RemovePictographs(b);
    }
  }

  /** The exception: a warning sign split between the pieces is removed only from the whole. */
  lemma WarningSignSplit()
    ensures RemovePictographs(WarningSign) == ""
    ensures RemovePictographs(WarningSign[..1]) + RemovePictographs(WarningSign[1..]) == WarningSign
  {
    assert WarningSign[2..] == "";
    assert WarningSign[..1][1..] == "" && WarningSign[1..][1..] == "";
  }

  /** `RemovePictographs` changes nothing in a text without pictographs. */
  lemma {:induction false} NoPictographs(t: string)
    requires forall k :: 0 <= k < |t| ==> t[k] !in SinglePictographs && t[k] != WarningSign[0]
    ensures RemovePictographs(t) == t
  {
    if |t| > 0 {
      NoPictographs(t[1..]);
      assert t == [t[0]] + t[1..];
    }
  }

  /** A heading text without pictographs or outer whitespace is the title as it stands. */
  lemma PlainTitle(t: string)
    requires t != [] && !IsWhitespace(t[0]) && !IsWhitespace(t[|t| - 1])
    requires forall k :: 0 <= k < |t| ==> t[k] !in SinglePictographs && t[k] != WarningSign[0]
    ensures Trim(RemovePictographs(t)) == t
  {
    NoPictographs(t);
    TrimNoPadding(t);
  }

  /** A heading text that the title keeps as it is: one line, no pictographs, no outer whitespace. */
  predicate PlainHeadingText(h: string) {
    && h != [] && !IsWhitespace(h[0]) && !IsWhitespace(h[|h| - 1])
    && forall k :: 0 <= k < |h| ==> !IsLineTerminator(h[k]) && h[k] !in SinglePictographs && h[k] != WarningSign[0]
  }

  /** The `\s+` after `#` runs over a line break: a bare `#` line takes the next line as the title. */
  lemma HeadingAfterLineBreak(h: string, filename: string)
    requires PlainHeadingText(h)
    ensures ExtractTitle("#\n" + h, filename) == h
  {
    var s := "#\n" + h;
    assert s[2..|s|] == h;
    HeadingTitle(s, 0, 2, |s|, filename);
    NoPictographs(h);
    TrimNoPadding(h);
  }

  /** A pictograph that opens the heading, and the space after it, are not part of the title: `# 📊 <h>` is titled `<h>`. */
  lemma LeadingPictographDropped(h: string, filename: string)
    requires PlainHeadingText(h)
    ensures ExtractTitle("# \U{1F4CA} " + h, filename) == h
  {
    var s := "# \U{1F4CA} " + h;
    PictographHeadingShape(h);
    HeadingTitle(s, 0, 2, |s|, filename);
    PictographRemoved(h);
    TrimIgnoresLeadingWhitespace(" ", h);
    TrimNoPadding(h);
  }

  lemma PictographHeadingShape(h: string)
    requires PlainHeadingText(h)
    ensures var s := "# \U{1F4CA} " + h;
      && s[0] == '#' && IsLineStart(s, 0) && IsWhitespace(s[1]) && !IsWhitespace(s[2])
      && (forall k :: 2 <= k < |s| ==> !IsLineTerminator(s[k]))
      && s[2..|s|] == ['\U{1F4CA}'] + (" " + h)
  {
    var s := "# \U{1F4CA} " + h;
    assert s[..4] == "# \U{1F4CA} " && s[4..] == h;
    forall k | 4 <= k < |s| ensures !IsLineTerminator(s[k]) {
      assert s[k] == h[k - 4];
    }
  }

  lemma PictographRemoved(h: string)
    requires PlainHeadingText(h)
    ensures RemovePictographs(['\U{1F4CA}'] + (" " + h)) == " " + h
  {
    var t := " " + h;
    var u := ['\U{1F4CA}'] + t;
    assert u[0] in SinglePictographs && u[1..] == t;
    NoPictographs(t);
  }

  /** Without a heading, a dated report `YYYYMMDD-专报-<topic>.md` is titled by its topic. */
  lemma DatedNameTitle(content: string, digits: string, topic: string)
    requires FirstHeading(content, 0).None?
    requires |digits| == 8 && AllDigits(digits)
    requires forall k :: 0 <= k < |topic| ==> !IsLineTerminator(topic[k])
    ensures ExtractTitle(content, digits + "-专报-" + topic + ".md") == topic
  {
    var f := digits + "-专报-" + topic + ".md";
    assert forall k :: 0 <= k < 8 ==> f[k] == digits[k];
    assert f[8] == '-';
    assert f[|f| - 3..] == ".md";
    assert f[9..|f| - 3] == "专报-" + topic;
    assert IsDatedName(f);
    ReplaceLeading("专报-", topic);
  }

  /** Without a heading, a name that is not dated loses its `.md` extension and nothing else. */
  lemma PlainNameTitle(content: string, name: string)
    requires FirstHeading(content, 0).None?
    requires forall j: nat :: !OccursAt(name, ".md", j)
    requires !IsDatedName(name + ".md")
    ensures ExtractTitle(content, name + ".md") == name
  {
    var f := name + ".md";
    forall j: nat | j < |name| ensures !OccursAt(f, ".md", j) {
      if j + 3 <= |name| {
        assert !OccursAt(name, ".md", j);
        assert f[j..j + 3] == name[j..j + 3];
      } else if j + 3 <= |f| {
        assert f[|name|] == '.' && ".md"[1] != '.' && ".md"[2] != '.';
        assert f[j..j + 3][|name| - j] == f[|name|];
      }
    }
    assert OccursAt(f, ".md", |name|);
    ReplaceFirstSpec(f, ".md", "", |name|);
    assert f[..|name|] == name;
  }

  // ----------------------------------------------------------------------
  // Properties of the preview
  // ----------------------------------------------------------------------

  /** The characters any of the markup rules of `extractPreview` needs in order to match. */
  const MarkupChars: set<char> := {'#', '*', '[', '`', '-', '+', '.'}

  /** Every `\n` is followed by a visible character, so no blank stretch lies between two of them. */
  predicate NewlinesFollowed(s: string) {
    forall k :: 0 <= k < |s| && s[k] == '\n' ==> k + 1 < |s| && !IsWhitespace(s[k + 1])
  }

  lemma {:induction false} HeadingMarksAbsent(s: string, i: nat)
    requires i <= |s| && forall k :: i <= k < |s| ==> s[k] != '#'
    ensures StripHeadingMarks(s, i) == s[i..]
    decreases |s| - i
  {
    if i < |s| {
      HeadingMarksAbsent(s, i + 1);
      assert s[i..] == [s[i]] + s[i + 1..];
    }
  }

  lemma {:induction false} PairedAbsent(s: string, i: nat, d: string)
    requires i <= |s| && |d| > 0 && forall k :: i <= k < |s| ==> s[k] != d[0]
    ensures StripPaired(s, i, d) == s[i..]
    decreases |s| - i
  {
    if i < |s| {
      assert i + |d| <= |s| ==> s[i..i + |d|][0] == s[i];
      PairedAbsent(s, i + 1, d);
      assert s[i..] == [s[i]] + s[i + 1..];
    }
  }

  lemma {:induction false} LinksAbsent(s: string, i: nat)
    requires i <= |s| && '[' !in s
    ensures StripLinks(s, i) == s[i..]
    decreases |s| - i
  {
    if i < |s| {
      LinksAbsent(s, i + 1);
      assert s[i..] == [s[i]] + s[i + 1..];
    }
  }

  lemma {:induction false} FencesAbsent(s: string, i: nat)
    requires i <= |s| && '`' !in s
    ensures StripFences(s, i) == s[i..]
    decreases |s| - i
  {
    if i < |s| {
      assert i + 3 <= |s| ==> s[i..i + 3][0] == s[i];
      FencesAbsent(s, i + 1);
      assert s[i..] == [s[i]] + s[i + 1..];
    }
  }

  lemma {:induction false} InlineCodeAbsent(s: string, i: nat)
    requires i <= |s| && '`' !in s
    ensures StripInlineCode(s, i) == s[i..]
    decreases |s| - i
  {
    if i < |s| {
      InlineCodeAbsent(s, i + 1);
      assert s[i..] == [s[i]] + s[i + 1..];
    }
  }

  lemma {:induction false} BulletsAbsent(s: string, i: nat)
    requires i <= |s| && '-' !in s && '*' !in s && '+' !in s
    ensures StripBullets(s, i) == s[i..]
    decreases |s| - i
  {
    if i < |s| {
      BulletsAbsent(s, i + 1);
      assert s[i..] == [s[i]] + s[i + 1..];
    }
  }

  lemma {:induction false} NumberingAbsent(s: string, i: nat)
    requires i <= |s| && '.' !in s
    ensures StripNumbering(s, i) == s[i..]
    decreases |s| - i
  {
    if i < |s| {
      NumberingAbsent(s, i + 1);
      assert s[i..] == [s[i]] + s[i + 1..];
    }
  }

  lemma {:induction false} NoBlankLines(s: string, i: nat)
    requires i <= |s| && NewlinesFollowed(s)
    ensures CollapseBlankLines(s, i) == s[i..]
    decreases |s| - i
  {
    if i < |s| {
      if s[i] == '\n' {
        assert WhitespaceEnd(s, i + 1) == i + 1;
      }
      NoBlankLines(s, i + 1);
      assert s[i..] == [s[i]] + s[i + 1..];
    }
  }

  /** Text without markup characters and without blank lines comes through the stripping chain unchanged. */
  lemma StripMarkupPlain(t: string)
    requires forall k :: 0 <= k < |t| ==> t[k] !in MarkupChars
    requires NewlinesFollowed(t)
    ensures StripMarkup(t) == t
  {
    HeadingMarksAbsent(t, 0);
    PairedAbsent(t, 0, "**");
    PairedAbsent(t, 0, "*");
    LinksAbsent(t, 0);
    FencesAbsent(t, 0);
    InlineCodeAbsent(t, 0);
    BulletsAbsent(t, 0);
    NumberingAbsent(t, 0);
    NoBlankLines(t, 0);
  }

  /** A line of prose: visible at both ends, on one line, without markup characters. */
  predicate PlainLine(l: string) {
    && l != [] && !IsWhitespace(l[0]) && !IsWhitespace(l[|l| - 1])
    && forall k :: 0 <= k < |l| ==> l[k] !in MarkupChars && !IsLineTerminator(l[k])
  }

  /** Plain lines joined with `\n` give a text with no markup, no blank line and no outer whitespace. */
  lemma {:induction false} JoinedPlainLines(lines: seq<string>)
    requires |lines| >= 1
    requires forall i :: 0 <= i < |lines| ==> PlainLine(lines[i])
    ensures var t := Join(lines, "\n");
      && t != [] && !IsWhitespace(t[0]) && !IsWhitespace(t[|t| - 1])
      && (forall k :: 0 <= k < |t| ==> t[k] !in MarkupChars)
      && NewlinesFollowed(t)
    decreases |lines|
  {
    if |lines| > 1 {
      var a := lines[0];
      var b := Join(lines[1..], "\n");
      JoinedPlainLines(lines[1..]);
      var t := a + "\n" + b;
      assert Join(lines, "\n") == t;
      assert PlainLine(a);
      forall k | 0 <= k < |t|
        ensures t[k] !in MarkupChars
        ensures t[k] == '\n' ==> k + 1 < |t| && !IsWhitespace(t[k + 1])
      {
        if k < |a| {
          assert t[k] == a[k];
        } else if k > |a| {
          assert t[k] == b[k - |a| - 1];
          if t[k] == '\n' {
            assert t[k + 1] == b[k - |a|];
          }
        } else {
          assert t[k + 1] == b[0];
        }
      }
      assert t[0] == a[0];
      assert t[|t| - 1] == b[|b| - 1];
    }
  }

  lemma {:induction false} NonBlankKeepsAll(lines: seq<string>)
    requires forall i :: 0 <= i < |lines| ==> Trim(lines[i]) != ""
    ensures NonBlank(lines) == lines
    decreases |lines|
  {
    if |lines| > 0 {
      var rest := lines[1..];
      assert forall i :: 0 <= i < |rest| ==> rest[i] == lines[i + 1];
      NonBlankKeepsAll(rest);
      NonBlankKeepsHead(lines);
      assert lines == [lines[0]] + rest;
    }
  }

  lemma NonBlankKeepsHead(lines: seq<string>)
    requires |lines| > 0 && Trim(lines[0]) != ""
    ensures NonBlank(lines) == [lines[0]] + NonBlank(lines[1..])
  {
  }

  /** Prose lines joined with `\n` survive the stripping chain and the trim unchanged. */
  lemma PlainTextUnchanged(lines: seq<string>)
    requires |lines| >= 1
    requires forall i :: 0 <= i < |lines| ==> PlainLine(lines[i])
    ensures Trim(StripMarkup(Join(lines, "\n"))) == Join(lines, "\n")
  {
    var t := Join(lines, "\n");
    JoinedPlainLines(lines);
    StripMarkupPlain(t);
    TrimNoPadding(t);
  }

  /** Splitting prose lines joined with `\n` gives the lines back, and the blank-line filter keeps them all. */
  lemma PlainTextLines(lines: seq<string>)
    requires |lines| >= 1
    requires forall i :: 0 <= i < |lines| ==> PlainLine(lines[i])
    ensures PreviewLines(Join(lines, "\n")) == TakeThree(lines)
  {
    assert forall i :: 0 <= i < |lines| ==> '\n' !in lines[i];
    SplitJoin(lines, '\n');
    assert forall i :: 0 <= i < |lines| ==> !AllWhitespace(lines[i]);
    NonBlankKeepsAll(lines);
  }

  /**
   * The preview of prose lines written one per line is the first three of
   * them joined with spaces, cut to 200 characters with `...` when longer.
   */
  lemma PlainLinesPreview(lines: seq<string>)
    requires |lines| >= 1
    requires forall i :: 0 <= i < |lines| ==> PlainLine(lines[i])
    ensures ExtractPreview(Join(lines, "\n")) == Truncate(Join(TakeThree(lines), " "))
  {
    PlainTextUnchanged(lines);
    PlainTextLines(lines);
  }

  /** The lazy `.*?` stops at the first closing delimiter, provided the line does not end before it. */
  lemma {:induction false} LazyCloseFinds(s: string, i: nat, d: string, k: nat)
    requires i <= k && OccursAt(s, d, k)
    requires forall j :: i <= j < k ==> !OccursAt(s, d, j) && !IsLineTerminator(s[j])
    ensures LazyClose(s, i, d) == Some(k)
    decreases k - i
  {
    if i < k {
      LazyCloseFinds(s, i + 1, d, k);
    }
  }

  lemma BoldIndex(w: string, j: nat)
    requires 2 <= j < 2 + |w|
    ensures ("**" + w + "**")[j] == w[j - 2]
  {
    var a := "**" + w;
    assert a[j] == w[j - 2];
    assert (a + "**")[j] == a[j];
  }

  lemma MismatchNotOccurs(s: string, d: string, j: nat)
    requires |d| > 0 && j < |s| && s[j] != d[0]
    ensures !OccursAt(s, d, j)
  {
    assert j + |d| <= |s| ==> s[j..j + |d|][0] == s[j];
  }

  /** Bold markup around a word is removed and the word kept: `**w**` becomes `w`. */
  lemma BoldRemoved(w: string)
    requires forall k :: 0 <= k < |w| ==> w[k] != '*' && !IsLineTerminator(w[k])
    ensures StripPaired("**" + w + "**", 0, "**") == w
  {
    var s := "**" + w + "**";
    var k := 2 + |w|;
    BoldInterior(w);
    LazyCloseFinds(s, 2, "**", k);
    assert s[2..k] == w;
    WholePair(s, "**", k);
  }

  lemma BoldInterior(w: string)
    requires forall k :: 0 <= k < |w| ==> w[k] != '*' && !IsLineTerminator(w[k])
    ensures OccursAt("**" + w + "**", "**", 0) && OccursAt("**" + w + "**", "**", 2 + |w|)
    ensures forall j :: 2 <= j < 2 + |w| ==> !OccursAt("**" + w + "**", "**", j) && !IsLineTerminator(("**" + w + "**")[j])
  {
    var s := "**" + w + "**";
    assert s[..2] == "**" && s[2 + |w|..] == "**";
    forall j | 2 <= j < 2 + |w| ensures !OccursAt(s, "**", j) && !IsLineTerminator(s[j]) {
      BoldIndex(w, j);
      MismatchNotOccurs(s, "**", j);
    }
  }

  /** A text that is one delimited pair loses the delimiters. */
  lemma WholePair(s: string, d: string, k: nat)
    requires |d| > 0 && OccursAt(s, d, 0) && k + |d| == |s| && |d| <= k
    requires LazyClose(s, |d|, d) == Some(k)
    ensures StripPaired(s, 0, d) == s[|d|..k]
  {
    assert StripPaired(s, k + |d|, d) == "";
  }

  /** A heading's `#` marks and the space after them are removed: `## w` becomes `w`. */
  lemma HeadingMarksRemoved(w: string)
    requires w != [] && !IsWhitespace(w[0])
    requires forall k :: 0 <= k < |w| ==> w[k] != '#'
    ensures StripHeadingMarks("## " + w, 0) == w
  {
    var s := "## " + w;
    assert s[0] == '#' && s[1] == '#' && s[2] == ' ';
    assert CharRunEnd(s, 0, '#') == 2;
    assert s[3] == w[0];
    assert WhitespaceEnd(s, 2) == 3;
    HeadingMarksAbsent(s, 3);
    assert s[3..] == w;
  }

  // ----------------------------------------------------------------------
  // Properties of the file size
  // ----------------------------------------------------------------------

  lemma {:induction false} Pow1024Grows(i: nat, j: nat)
    requires i < j
    ensures Pow1024(i + 1) <= Pow1024(j)
    decreases j - i
  {
    if i + 1 < j {
      Pow1024Grows(i + 1, j);
    }
  }

  /** The unit is the one power of 1024 that the size reaches without reaching the next. */
  lemma UnitIndexUnique(bytes: nat, i: nat)
    requires Pow1024(i) <= bytes < Pow1024(i + 1)
    ensures UnitIndex(bytes) == i
  {
    var j := UnitIndex(bytes);
    if j < i {
      Pow1024Grows(j, i);
    } else if i < j {
      Pow1024Grows(i, j);
    }
  }

  lemma MulMonotone(p: nat, q: nat, m: nat)
    requires p <= q
    ensures p * m <= q * m
  {
  }

  /** A number has one quotient by `m`: the `a` with `a * m <= x < (a + 1) * m`. */
  lemma QuotientUnique(x: nat, m: nat, a: nat, b: nat)
    requires m > 0
    requires a * m <= x < a * m + m
    requires b * m <= x < b * m + m
    ensures a == b
  {
    assert (a + 1) * m == a * m + m;
    assert (b + 1) * m == b * m + m;
    if a < b {
      MulMonotone(a + 1, b, m);
    } else if b < a {
      MulMonotone(b + 1, a, m);
    }
  }

  /** Reads back the text of a number of tenths: digits, optionally a point and one more digit. */
  function ParseTenths(t: string): Option<nat> {
    match CharIndex(t, '.')
    case None =>
      if t != [] && AllDigits(t) then Some(10 * DigitsValue(t)) else None
    case Some(k) =>
      if 0 < k && AllDigits(t[..k]) && |t| == k + 2 && IsAsciiDigit(t[k + 1]) then
        Some(10 * DigitsValue(t[..k]) + (t[k + 1] as int - '0' as int))
      else None
  }

  /** The text of `n` tenths reads back as `n`, and a whole number carries no `.0`. */
  lemma TenthsRoundTrip(n: nat)
    ensures ParseTenths(TenthsText(n)) == Some(n)
    ensures !EndsWith(TenthsText(n), ".0")
  {
    var w := NatToString(n / 10);
    var t := TenthsText(n);
    assert '.' !in w by {
      assert forall k :: 0 <= k < |w| ==> IsAsciiDigit(w[k]);
    }
    if n % 10 == 0 {
      assert t == w;
      if |t| >= 2 {
        assert t[|t| - 2..][0] == t[|t| - 2];
      }
    } else {
      assert t == w + ['.', DigitChar(n % 10)];
      assert t[..|w|] == w;
      CharIndexAt(t, '.', |w|);
      assert t[|t| - 2..][1] == DigitChar(n % 10);
    }
  }

  /**
   * What `formatFileSize` prints, said without computing it: for the unit
   * `i` that the size falls in and the number `n` of tenths of that unit
   * nearest to the size (a tie going up), the number without a trailing
   * `.0`, a space and the unit.
   */
  lemma FormatFileSizeMeaning(bytes: nat, i: nat, n: nat)
    requires bytes > 0
    requires Pow1024(i) <= bytes < Pow1024(i + 1)
    requires n * (2 * Pow1024(i)) <= 20 * bytes + Pow1024(i) < n * (2 * Pow1024(i)) + 2 * Pow1024(i)
    ensures FormatFileSize(bytes) == TenthsText(n) + " " + UnitName(i)
  {
    UnitIndexUnique(bytes, i);
    var m := RoundToTenths(bytes, Pow1024(i));
    QuotientUnique(20 * bytes + Pow1024(i), 2 * Pow1024(i), m, n);
  }

  /** Sizes below 1 KB are printed in bytes, as a whole number. */
  lemma SmallSize(bytes: nat)
    requires 0 < bytes < 1024
    ensures FormatFileSize(bytes) == NatToString(bytes) + " B"
  {
    assert Pow1024(0) == 1 && Pow1024(1) == 1024;
    assert (10 * bytes) * (2 * 1) == 20 * bytes;
    FormatFileSizeMeaning(bytes, 0, 10 * bytes);
    assert (10 * bytes) / 10 == bytes && (10 * bytes) % 10 == 0;
    assert TenthsText(10 * bytes) == NatToString(bytes);
    assert UnitName(0) == "B";
  }

  /** 1536 bytes are `1.5 KB`. */
  lemma KilobyteAndAHalf()
    ensures FormatFileSize(1536) == "1.5 KB"
  {
    assert Pow1024(1) == 1024 && Pow1024(2) == 1048576;
    FormatFileSizeMeaning(1536, 1, 15);
    assert NatToString(1) == "1";
    assert DigitChar(5) == '5';
  }

  /** 15564 bytes are `15.2 KB` (15.199 rounded to tenths). */
  lemma FifteenKilobytes()
    ensures FormatFileSize(15564) == "15.2 KB"
  {
    assert Pow1024(1) == 1024 && Pow1024(2) == 1048576;
    FormatFileSizeMeaning(15564, 1, 152);
    FifteenPointTwo();
    assert UnitName(1) == "KB";
  }

  lemma FifteenPointTwo()
    ensures TenthsText(152) == "15.2"
  {
    assert NatToString(15) == "15" by {
      assert NatToString(1) == "1";
      assert DigitChar(5) == '5';
    }
    assert DigitChar(2) == '2';
  }

  /** An exact power of 1024 is printed without a fraction: 1024 bytes are `1 KB`. */
  lemma OneKilobyte()
    ensures FormatFileSize(1024) == "1 KB"
  {
    assert Pow1024(1) == 1024 && Pow1024(2) == 1048576;
    FormatFileSizeMeaning(1024, 1, 10);
    assert NatToString(1) == "1";
  }

  /** Likewise 1048576 bytes are `1 MB`. */
  lemma OneMegabyte()
    ensures FormatFileSize(1048576) == "1 MB"
  {
    assert Pow1024(2) == 1048576 && Pow1024(3) == 1073741824;
    FormatFileSizeMeaning(1048576, 2, 10);
    assert NatToString(1) == "1";
  }
}
