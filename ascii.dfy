/**
 * haklib.ascii: a message wrapped in a plain ASCII box.  Every line of the
 * box, header and footer included, is `width + 4` characters wide, where
 * `width` is the longest message line, raised to `minwidth` and to the
 * title's needs.
 */
module Ascii {
  import opened Wrappers
  import opened Iter
  import opened Strings

  // ---------------------------------------------------------------------
  // Splitting a message into lines

  /** The index of the first newline at or after `k`, or `|s|` when there is none. */
  function NextNewline(s: string, k: nat): (i: nat)
    requires k <= |s|
    ensures k <= i <= |s|
    ensures i < |s| ==> s[i] == '\n'
    decreases |s| - k
  {
    if k == |s| || s[k] == '\n' then k else NextNewline(s, k + 1)
  }

  /** No newline comes before the one found. */
  lemma {:induction false} NextNewlineFirst(s: string, k: nat)
    requires k <= |s|
    ensures forall j :: k <= j < NextNewline(s, k) ==> s[j] != '\n'
    decreases |s| - k
  {
    if k < |s| && s[k] != '\n' {
      NextNewlineFirst(s, k + 1);
    }
  }

  /** A newline at `i` (or the end) with none from `k` up to it is the one found. */
  lemma {:induction false} NextNewlineIs(s: string, k: nat, i: nat)
    requires k <= i <= |s| && (i < |s| ==> s[i] == '\n')
    requires forall j :: k <= j < i ==> s[j] != '\n'
    ensures NextNewline(s, k) == i
    decreases i - k
  {
    if k < i {
      NextNewlineIs(s, k + 1, i);
    }
  }

  /**
   * `str.splitlines` with `\n` as the only line boundary: the pieces between
   * newlines, where a newline at the very end does not start another line
   * and the empty string has no lines.
   */
  function SplitLines(s: string): (r: seq<string>)
    ensures |s| > 0 <==> |r| > 0
    decreases |s|
  {
    if |s| == 0 then []
    else
      var i := NextNewline(s, 0);
      if i == |s| then [s] else [s[..i]] + SplitLines(s[i + 1..])
  }

  /** No line holds a newline. */
  lemma {:induction false} SplitLinesNoNewline(s: string)
    ensures forall j :: 0 <= j < |SplitLines(s)| ==> '\n' !in SplitLines(s)[j]
    decreases |s|
  {
    if |s| > 0 {
      var i := NextNewline(s, 0);
      NextNewlineFirst(s, 0);
      assert '\n' !in s[..i];
      if i < |s| {
        var rest := SplitLines(s[i + 1..]);
        SplitLinesNoNewline(s[i + 1..]);
        assert SplitLines(s) == [s[..i]] + rest;
      }
    }
  }

  /** Whether `s` ends with a newline. */
  predicate EndsWithNewline(s: string)
  {
    |s| > 0 && s[|s| - 1] == '\n'
  }

  /** A message with a newline at `i` and none before: the first line, then the lines after it. */
  lemma SplitLinesAt(s: string, i: nat)
    requires i < |s| && i == NextNewline(s, 0)
    ensures SplitLines(s) == [s[..i]] + SplitLines(s[i + 1..])
    ensures s == s[..i] + "\n" + s[i + 1..]
  {
    assert s[i] == '\n';
    assert s == s[..i] + [s[i]] + s[i + 1..];
  }

  /** Joining the lines with newlines gives back the message, less a final newline. */
  lemma {:induction false} JoinSplitLines(s: string)
    ensures Join("\n", SplitLines(s)) + (if EndsWithNewline(s) then "\n" else "") == s
    decreases |s|
  {
    if |s| > 0 {
      var i := NextNewline(s, 0);
      if i < |s| {
        var rest := s[i + 1..];
        SplitLinesAt(s, i);
        JoinSplitLines(rest);
        if |rest| > 0 {
          var tail := SplitLines(rest);
          assert |tail| > 0;
          assert Join("\n", [s[..i]] + tail) == s[..i] + "\n" + Join("\n", tail);
          assert EndsWithNewline(s) == EndsWithNewline(rest);
        }
      } else {
        NextNewlineFirst(s, 0);
        assert !EndsWithNewline(s);
      }
    }
  }

  /** In a line without newlines followed by a newline, the first newline is the one after the line. */
  lemma NextNewlineAfter(p: string, t: string)
    requires '\n' !in p
    ensures NextNewline(p + "\n" + t, 0) == |p|
  {
    var s := p + "\n" + t;
    forall j | 0 <= j < |p|
      ensures s[j] != '\n'
    {
      assert s[j] == p[j];
    }
    NextNewlineIs(s, 0, |p|);
  }

  /** Lines without newlines, the last one non-empty, split back from their join. */
  lemma {:induction false} SplitJoinLines(parts: seq<string>)
    requires |parts| > 0 && |parts[|parts| - 1]| > 0
    requires forall j :: 0 <= j < |parts| ==> '\n' !in parts[j]
    ensures SplitLines(Join("\n", parts)) == parts
    decreases |parts|
  {
    var s := Join("\n", parts);
    if |parts| == 1 {
      assert s == parts[0];
      NextNewlineIs(s, 0, |s|);
    } else {
      var p, rest := parts[0], parts[1..];
      SplitJoinLines(rest);
      assert s == p + "\n" + Join("\n", rest);
      NextNewlineAfter(p, Join("\n", rest));
      var i := |p|;
      assert s[..i] == p && s[i + 1..] == Join("\n", rest);
    }
  }

  // ---------------------------------------------------------------------
  // The box

  /** The longest length among the lines, 0 when there are none. */
  function MaxLen(lines: seq<string>): (m: nat)
    ensures forall j :: 0 <= j < |lines| ==> |lines[j]| <= m
    ensures |lines| == 0 ==> m == 0
  {
    if |lines| == 0 then 0
    else
      var m := MaxLen(lines[..|lines| - 1]);
      var last := |lines[|lines| - 1]|;
      assert forall j :: 0 <= j < |lines| - 1 ==> lines[j] == lines[..|lines| - 1][j];
      if m < last then last else m
  }

  function Max(a: int, b: int): int
  {
    if a < b then b else a
  }

  /** The inner width of the box: the longest line, raised to `minwidth` and to the title plus six. */
  function Width(lines: seq<string>, title: Option<string>, minwidth: Option<int>): nat
  {
    var w0 := MaxLen(lines);
    var w1 := if minwidth.Some? then Max(w0, minwidth.value) else w0;
    if title.Some? then Max(w1, |title.value| + 6) else w1
  }

  /** Python's `c * k`: `k` copies of `c`, none when `k` is not positive. */
  function Repeat(c: char, k: int): (r: string)
    ensures |r| == if k > 0 then k else 0
    ensures forall j :: 0 <= j < |r| ==> r[j] == c
  {
    if k > 0 then Fill(c, k) else ""
  }

  /** The bottom bar: a corner, `width + 2` dashes, a corner. */
  function Footer(width: nat): string
  {
    "+" + Repeat('-', width + 2) + "+"
  }

  /** The top bar: the footer, or the title set into it after two dashes. */
  function Header(title: Option<string>, width: nat): string
  {
    if title.None? then Footer(width)
    else "+--[ " + title.value + " ]--" + Repeat('-', width - 6 - |title.value|) + "+"
  }

  /** A body line: the message line left-justified in `width` columns between bars. */
  function Row(line: string, width: nat): string
  {
    "| " + line + Repeat(' ', width - |line|) + " |"
  }

  /** The rows of the message lines. */
  function Rows(lines: seq<string>, width: nat): (r: seq<string>)
    ensures |r| == |lines|
    ensures forall j :: 0 <= j < |lines| ==> r[j] == Row(lines[j], width)
  {
    if |lines| == 0 then [] else Rows(lines[..|lines| - 1], width) + [Row(lines[|lines| - 1], width)]
  }

  /** The lines of the box around `msg`: header, one row per message line, footer. */
  function BoxLines(msg: string, title: Option<string>, minwidth: Option<int>): seq<string>
  {
    var lines := SplitLines(msg);
    var width := Width(lines, title, minwidth);
    [Header(title, width)] + Rows(lines, width) + [Footer(width)]
  }

  /** The first loop of asciibox: the widest line, by a running maximum. */
  method LongestLine(lines: seq<string>) returns (width: int)
    ensures width == MaxLen(lines)
  {
    width := 0;
    var i := 0;
    while i < |lines|
      invariant 0 <= i <= |lines|
      invariant width == MaxLen(lines[..i])
    {
      MaxLenSnoc(lines, i);
      width := Max(width, |lines[i]|);
      i := i + 1;
    }
    assert lines[..|lines|] == lines;
  }

  /** The second loop of asciibox: one row per message line appended to `out`. */
  method AppendRows(out: seq<string>, lines: seq<string>, width: nat) returns (res: seq<string>)
    ensures res == out + Rows(lines, width)
  {
    res := out;
    var i := 0;
    while i < |lines|
      invariant 0 <= i <= |lines|
      invariant res == out + Rows(lines[..i], width)
    {
      RowsSnoc(lines, i, width);
      res := res + [Row(lines[i], width)];
      i := i + 1;
    }
    assert lines[..|lines|] == lines;
  }

  /**
   * asciibox: measures the widest line, raises the width to `minwidth` and
   * to the title, then appends the header, one row per line and the footer
   * to `out`, and joins `out` with newlines.
   */
  method AsciiBox(msg: string, title: Option<string>, minwidth: Option<int>) returns (box: string)
    ensures box == Join("\n", BoxLines(msg, title, minwidth))
  {
    var lines := SplitLines(msg);
    var width := LongestLine(lines);
    if minwidth.Some? {
      width := Max(width, minwidth.value);
    }
    if title.Some? {
      width := Max(width, |title.value| + 6);
    }
    assert width == Width(lines, title, minwidth);
    var ftr := Footer(width);
    var hdr := ftr;
    if title.Some? {
      hdr := "+--[ " + title.value + " ]--" + Repeat('-', width - 6 - |title.value|) + "+";
    }
    assert hdr == Header(title, width);
    var out := AppendRows([hdr], lines, width);
    out := out + [ftr];
    box := Join("\n", out);
  }

  /** The longest length is at most any bound on all the lines. */
  lemma {:induction false} MaxLenLeast(lines: seq<string>, w: int)
    requires 0 <= w && forall j :: 0 <= j < |lines| ==> |lines[j]| <= w
    ensures MaxLen(lines) <= w
  {
    if |lines| > 0 {
      MaxLenLeast(lines[..|lines| - 1], w);
    }
  }

  lemma MaxLenSnoc(lines: seq<string>, i: nat)
    requires i < |lines|
    ensures MaxLen(lines[..i + 1]) == Max(MaxLen(lines[..i]), |lines[i]|)
  {
    assert lines[..i + 1][..i] == lines[..i];
  }

  lemma RowsSnoc(lines: seq<string>, i: nat, width: nat)
    requires i < |lines|
    ensures Rows(lines[..i + 1], width) == Rows(lines[..i], width) + [Row(lines[i], width)]
  {
    assert lines[..i + 1][..i] == lines[..i];
  }

  // ---------------------------------------------------------------------
  // Properties of the box

  /** The box has a header, one row per message line and a footer. */
  lemma BoxLineCount(msg: string, title: Option<string>, minwidth: Option<int>)
    ensures |BoxLines(msg, title, minwidth)| == |SplitLines(msg)| + 2
  {
  }

  /**
   * The width covers every message line, `minwidth` when given and the
   * title plus six when given, and it is the least such width.
   */
  lemma WidthBounds(lines: seq<string>, title: Option<string>, minwidth: Option<int>, w: int)
    ensures forall j :: 0 <= j < |lines| ==> |lines[j]| <= Width(lines, title, minwidth)
    ensures minwidth.Some? ==> minwidth.value <= Width(lines, title, minwidth)
    ensures title.Some? ==> |title.value| + 6 <= Width(lines, title, minwidth)
    ensures 0 <= w && (forall j :: 0 <= j < |lines| ==> |lines[j]| <= w)
      && (minwidth.Some? ==> minwidth.value <= w) && (title.Some? ==> |title.value| + 6 <= w)
      ==> Width(lines, title, minwidth) <= w
  {
    if 0 <= w && forall j :: 0 <= j < |lines| ==> |lines[j]| <= w {
      MaxLenLeast(lines, w);
    }
  }

  /** The footer is a corner, `width + 2` dashes and a corner; every row is `width + 4` wide. */
  lemma FooterShape(width: nat)
    ensures |Footer(width)| == width + 4
    ensures Footer(width)[0] == '+' && Footer(width)[width + 3] == '+'
    ensures forall j :: 1 <= j <= width + 2 ==> Footer(width)[j] == '-'
  {
  }

  /** Without a title the header is the footer; with one it starts with the bracketed title and ends in a corner. */
  lemma HeaderShape(title: Option<string>, width: nat)
    requires title.Some? ==> |title.value| + 6 <= width
    ensures |Header(title, width)| == width + 4
    ensures title.None? ==> Header(title, width) == Footer(width)
    ensures title.Some? ==> Header(title, width)[..|title.value| + 9] == "+--[ " + title.value + " ]--"
    ensures Header(title, width)[width + 3] == '+'
  {
    if title.Some? {
      var h := Header(title, width);
      var front := "+--[ " + title.value + " ]--";
      assert h == front + Repeat('-', width - 6 - |title.value|) + "+";
      assert h[..|front|] == front;
    }
  }

  /** A row of a line that fits is `| `, the line, spaces up to `width` columns, ` |`. */
  lemma RowShape(line: string, width: nat)
    requires |line| <= width
    ensures |Row(line, width)| == width + 4
    ensures Row(line, width)[..2] == "| " && Row(line, width)[width + 2..] == " |"
    ensures Row(line, width)[2..|line| + 2] == line
    ensures forall j :: |line| + 2 <= j < width + 2 ==> Row(line, width)[j] == ' '
  {
    var r := Row(line, width);
    assert r == "| " + line + Repeat(' ', width - |line|) + " |";
  }

  /** All lines of the box, header and footer included, are `width + 4` characters wide. */
  lemma BoxLinesSameWidth(msg: string, title: Option<string>, minwidth: Option<int>)
    ensures forall j :: 0 <= j < |BoxLines(msg, title, minwidth)| ==>
      |BoxLines(msg, title, minwidth)[j]| == Width(SplitLines(msg), title, minwidth) + 4
  {
    var lines := SplitLines(msg);
    var width := Width(lines, title, minwidth);
    WidthBounds(lines, title, minwidth, 0);
    HeaderShape(title, width);
    FooterShape(width);
    forall j | 0 <= j < |lines|
      ensures |Row(lines[j], width)| == width + 4
    {
      RowShape(lines[j], width);
    }
  }

  /**
   * When the title holds no newline, splitting the box on newlines gives
   * back exactly its lines: header, rows, footer.
   */
  lemma BoxSplitsIntoLines(msg: string, title: Option<string>, minwidth: Option<int>)
    requires title.Some? ==> '\n' !in title.value
    ensures SplitLines(Join("\n", BoxLines(msg, title, minwidth))) == BoxLines(msg, title, minwidth)
  {
    var lines := SplitLines(msg);
    var width := Width(lines, title, minwidth);
    var parts := BoxLines(msg, title, minwidth);
    BoxLinesSameWidth(msg, title, minwidth);
    SplitLinesNoNewline(msg);
    assert '\n' !in Footer(width);
    assert '\n' !in Header(title, width) by {
      if title.Some? {
        assert Header(title, width) == "+--[ " + title.value + " ]--" + Repeat('-', width - 6 - |title.value|) + "+";
      }
    }
    forall j | 0 <= j < |lines|
      ensures '\n' !in Row(lines[j], width)
    {
      assert Row(lines[j], width) == "| " + lines[j] + Repeat(' ', width - |lines[j]|) + " |";
    }
    SplitJoinLines(parts);
  }
}
