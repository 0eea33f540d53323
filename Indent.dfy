/** Kotlin's `String.lines()`, `joinToString("\n")` and `String.trimIndent()`,
    which shape the HTML document built in convertPdfToHtml. */
module Indent {
  import opened Common

  /** Kotlin's `Char.isWhitespace()`: Java's `Character.isWhitespace` or
      `Character.isSpaceChar`. */
  predicate IsWhitespace(c: char) {
    c == ' ' || c == '\t' || c == '\n' || c == '\U{000B}' || c == '\U{000C}' || c == '\r'
    || ('\U{001C}' <= c <= '\U{001F}')
    || c == '\U{00A0}' || c == '\U{1680}' || ('\U{2000}' <= c <= '\U{200A}')
    || c == '\U{2028}' || c == '\U{2029}' || c == '\U{202F}' || c == '\U{205F}' || c == '\U{3000}'
  }

  /** `String.isBlank()`. */
  predicate IsBlank(s: string) {
    forall i :: 0 <= i < |s| ==> IsWhitespace(s[i])
  }

  predicate IsLineBreak(c: char) {
    c == '\n' || c == '\r'
  }

  predicate NoLineBreaks(s: string) {
    '\n' !in s && '\r' !in s
  }

  predicate NoCarriageReturn(s: string) {
    '\r' !in s
  }

  /** `String.lines()`: split on CRLF, LF and CR; the text after the last
      separator is always a (possibly empty) final line. */
  function Lines(s: string): (r: seq<string>)
    ensures |r| >= 1
    ensures forall i :: 0 <= i < |r| ==> NoLineBreaks(r[i])
    decreases |s|
  {
    if s == [] then [""]
    else if s[0] == '\n' then [""] + Lines(s[1..])
    else if s[0] == '\r' then [""] + Lines(if |s| > 1 && s[1] == '\n' then s[2..] else s[1..])
    else
      var rest := Lines(s[1..]);
      [[s[0]] + rest[0]] + rest[1..]
  }

  /** `joinToString("\n")`. */
  function JoinLines(ls: seq<string>): string {
    if |ls| == 0 then ""
    else if |ls| == 1 then ls[0]
    else ls[0] + "\n" + JoinLines(ls[1..])
  }

  /** Number of leading whitespace characters (the whole length of a blank line). */
  function IndentWidth(s: string): (n: nat)
    ensures n <= |s|
    ensures forall i :: 0 <= i < n ==> IsWhitespace(s[i])
    ensures n < |s| ==> !IsWhitespace(s[n])
  {
    if s == [] || !IsWhitespace(s[0]) then 0 else 1 + IndentWidth(s[1..])
  }

  /** The smallest indent of a non-blank line, if there is a non-blank line. */
  function MinIndent(ls: seq<string>): (m: Option<nat>)
    ensures m.Some? ==> exists i :: 0 <= i < |ls| && !IsBlank(ls[i]) && IndentWidth(ls[i]) == m.value
    ensures m.Some? ==> forall i :: 0 <= i < |ls| && !IsBlank(ls[i]) ==> m.value <= IndentWidth(ls[i])
    ensures m.None? <==> forall i :: 0 <= i < |ls| ==> IsBlank(ls[i])
  {
    if ls == [] then None
    else
      var tail := MinIndent(ls[1..]);
      if IsBlank(ls[0]) then tail
      else if tail.None? || IndentWidth(ls[0]) <= tail.value then Some(IndentWidth(ls[0]))
      else tail
  }

  /** `minCommonIndent` of `replaceIndent`: 0 when every line is blank. */
  function MinCommonIndent(ls: seq<string>): nat {
    var m := MinIndent(ls); if m.None? then 0 else m.value
  }

  /** `String.drop(n)`. */
  function Drop(s: string, n: nat): string {
    if n <= |s| then s[n..] else ""
  }

  /** `trimIndent()`: split into lines, remove the first and the last line
      when they are blank, cut the common minimal indent from every other
      line, and join with LF. */
  function TrimIndent(s: string): string {
    Reindent(Lines(s))
  }

  /** The `reindent` step of `trimIndent` on the lines of a text. */
  function Reindent(ls: seq<string>): string
    requires |ls| >= 1
  {
    var first := if IsBlank(ls[0]) then 1 else 0;
    var end := if |ls| > 1 && IsBlank(ls[|ls| - 1]) then |ls| - 1 else |ls|;
    JoinLines(DropEach(ls[first..end], MinCommonIndent(ls)))
  }

  /** The lines after cutting `n` characters from each. */
  function DropEach(ls: seq<string>, n: nat): (r: seq<string>)
    ensures |r| == |ls|
    ensures forall i :: 0 <= i < |ls| ==> r[i] == Drop(ls[i], n)
  {
    seq(|ls|, i requires 0 <= i < |ls| => Drop(ls[i], n))
  }

  /** A text without line breaks is one line. */
  lemma {:induction false} LinesOfSingleLine(s: string)
    requires NoLineBreaks(s)
    ensures Lines(s) == [s]
  {
    if s != [] {
      LinesOfSingleLine(s[1..]);
      assert [s[0]] + s[1..] == s;
    }
  }

  lemma LinesOfLineFeed(rest: string)
    ensures Lines("\n" + rest) == [""] + Lines(rest)
  {
    assert ("\n" + rest)[1..] == rest;
  }

  lemma LinesOfOrdinary(c: char, rest: string)
    requires !IsLineBreak(c)
    ensures Lines([c] + rest) == [[c] + Lines(rest)[0]] + Lines(rest)[1..]
  {
    assert ([c] + rest)[1..] == rest;
  }

  /** A line separator right at the start: CRLF, LF, or a CR not followed by LF. */
  lemma LinesOfSeparator(sep: string, b: string)
    requires sep == "\r\n" || sep == "\n" || (sep == "\r" && !StartsWith(b, "\n"))
    ensures Lines(sep + b) == [""] + Lines(b)
  {
    var s := sep + b;
    assert s[|sep|..] == b;
    if sep == "\r" {
      assert |s| > 1 ==> s[1] == b[0];
    }
  }

  /** A line without breaks followed by CRLF, LF, or a lone CR is the first
      line of the text; the lines after the separator follow. */
  lemma {:induction false} LinesAtSeparator(a: string, sep: string, b: string)
    requires NoLineBreaks(a)
    requires sep == "\r\n" || sep == "\n" || (sep == "\r" && !StartsWith(b, "\n"))
    ensures Lines(a + sep + b) == [a] + Lines(b)
    decreases |a|
  {
    if a == [] {
      assert a + sep + b == sep + b;
      LinesOfSeparator(sep, b);
    } else {
      var c, t := a[0], a[1..];
      assert a == [c] + t;
      assert a + sep + b == [c] + (t + sep + b);
      assert c in a;
      assert NoLineBreaks(t) by { assert forall x :: x in t ==> x in a; }
      LinesAtSeparator(t, sep, b);
      LinesOfOrdinary(c, t + sep + b);
    }
  }

  /** An LF splits the lines of a text without CR in two. */
  lemma {:induction false} LinesSplitAtLineFeed(a: string, b: string)
    requires NoCarriageReturn(a)
    ensures Lines(a + "\n" + b) == Lines(a) + Lines(b)
    decreases |a|
  {
    if a == [] {
      assert a + "\n" + b == "\n" + b;
      LinesOfLineFeed(b);
    } else {
      var c, t := a[0], a[1..];
      assert a == [c] + t;
      assert a + "\n" + b == [c] + (t + "\n" + b);
      assert NoCarriageReturn(t);
      LinesSplitAtLineFeed(t, b);
      if c == '\n' {
        LinesOfLineFeed(t + "\n" + b);
        LinesOfLineFeed(t);
      } else {
        LinesOfOrdinary(c, t + "\n" + b);
        LinesOfOrdinary(c, t);
        var lt := Lines(t);
        assert (lt + Lines(b))[0] == lt[0];
        assert (lt + Lines(b))[1..] == lt[1..] + Lines(b);
      }
    }
  }

  lemma JoinLinesUnfold(ls: seq<string>)
    requires |ls| > 1
    ensures JoinLines(ls) == ls[0] + "\n" + JoinLines(ls[1..])
  {
  }

  /** Joining the lines of a text without CR with LF gives the text back. */
  lemma {:induction false} JoinLinesOfLines(s: string)
    requires NoCarriageReturn(s)
    ensures JoinLines(Lines(s)) == s
    decreases |s|
  {
    if s != [] {
      var tail := Lines(s[1..]);
      assert NoCarriageReturn(s[1..]);
      JoinLinesOfLines(s[1..]);
      if s[0] == '\n' {
        assert Lines(s) == [""] + tail;
        JoinLinesUnfold([""] + tail);
        assert ([""] + tail)[1..] == tail;
        assert s == "\n" + s[1..];
      } else {
        assert Lines(s) == [[s[0]] + tail[0]] + tail[1..];
        if |tail| == 1 {
          assert s == [s[0]] + s[1..];
        } else {
          JoinLinesUnfold(tail);
          JoinLinesUnfold(Lines(s));
          assert Lines(s)[1..] == tail[1..];
          assert s == [s[0]] + s[1..];
        }
      }
    }
  }

  /** Joining two non-empty lists of lines puts one LF between them. */
  lemma {:induction false} JoinLinesAppend(a: seq<string>, b: seq<string>)
    requires |a| >= 1 && |b| >= 1
    ensures JoinLines(a + b) == JoinLines(a) + "\n" + JoinLines(b)
    decreases |a|
  {
    JoinLinesUnfold(a + b);
    if |a| == 1 {
      assert (a + b)[1..] == b;
    } else {
      assert (a + b)[1..] == a[1..] + b;
      JoinLinesAppend(a[1..], b);
      JoinLinesUnfold(a);
    }
  }

  /** Splitting lines that were joined with LF gives the lines back. */
  lemma {:induction false} LinesOfJoinLines(ls: seq<string>)
    requires |ls| >= 1
    requires forall i :: 0 <= i < |ls| ==> NoLineBreaks(ls[i])
    ensures Lines(JoinLines(ls)) == ls
    decreases |ls|
  {
    if |ls| == 1 {
      LinesOfSingleLine(ls[0]);
    } else {
      JoinLinesUnfold(ls);
      LinesSplitAtLineFeed(ls[0], JoinLines(ls[1..]));
      LinesOfSingleLine(ls[0]);
      LinesOfJoinLines(ls[1..]);
      assert [ls[0]] + ls[1..] == ls;
    }
  }

  /** The minimal indent depends only on which non-blank lines there are. */
  lemma MinIndentSameNonBlank(a: seq<string>, b: seq<string>)
    requires forall i :: 0 <= i < |a| && !IsBlank(a[i]) ==> a[i] in b
    requires forall i :: 0 <= i < |b| && !IsBlank(b[i]) ==> b[i] in a
    ensures MinCommonIndent(a) == MinCommonIndent(b)
  {
    var ma, mb := MinIndent(a), MinIndent(b);
    if ma.Some? {
      var i :| 0 <= i < |a| && !IsBlank(a[i]) && IndentWidth(a[i]) == ma.value;
      var j :| 0 <= j < |b| && b[j] == a[i];
    }
    if mb.Some? {
      var i :| 0 <= i < |b| && !IsBlank(b[i]) && IndentWidth(b[i]) == mb.value;
      var j :| 0 <= j < |a| && a[j] == b[i];
    }
  }

  /** A text that opens with an LF and closes with an LF and a blank line
      loses those two lines; the lines in between lose their common indent. */
  lemma TrimIndentFramed(mid: string, close: string)
    requires NoCarriageReturn(mid)
    requires NoLineBreaks(close) && IsBlank(close)
    ensures TrimIndent("\n" + mid + "\n" + close)
         == JoinLines(DropEach(Lines(mid), MinCommonIndent(Lines(mid))))
  {
    var lm := Lines(mid);
    assert NoCarriageReturn("\n" + mid);
    LinesSplitAtLineFeed("\n" + mid, close);
    LinesOfLineFeed(mid);
    LinesOfSingleLine(close);
    var ls := [""] + lm + [close];
    assert Lines("\n" + mid + "\n" + close) == ls;
    assert IsBlank(ls[0]);
    assert ls[|ls| - 1] == close;
    assert ls[1..|ls| - 1] == lm;
    forall i | 0 <= i < |ls| && !IsBlank(ls[i]) ensures ls[i] in lm {
      assert 1 <= i < |ls| - 1;
      assert ls[i] == lm[i - 1];
    }
    forall i | 0 <= i < |lm| && !IsBlank(lm[i]) ensures lm[i] in ls {
      assert ls[i + 1] == lm[i];
    }
    MinIndentSameNonBlank(ls, lm);
  }

  /** When some line sits at column 0 nothing is cut, so the framed text comes back whole. */
  lemma FramedAtColumnZero(mid: string, close: string, line: string)
    requires NoCarriageReturn(mid)
    requires NoLineBreaks(close) && IsBlank(close)
    requires line in Lines(mid) && |line| > 0 && !IsWhitespace(line[0])
    ensures TrimIndent("\n" + mid + "\n" + close) == mid
  {
    TrimIndentFramed(mid, close);
    var ls := Lines(mid);
    var k :| 0 <= k < |ls| && ls[k] == line;
    assert !IsBlank(ls[k]) && IndentWidth(ls[k]) == 0;
    assert MinCommonIndent(ls) == 0;
    assert DropEach(ls, 0) == ls;
    JoinLinesOfLines(mid);
  }

  /** A break-free text between two LFs is a line of its own. */
  lemma LineBetweenLineFeeds(x: string, q: string, r: string)
    requires NoCarriageReturn(x) && NoLineBreaks(q)
    ensures Lines(x + "\n" + q + "\n" + r) == Lines(x) + [q] + Lines(r)
  {
    LinesSplitAtLineFeed(x, q);
    LinesOfSingleLine(q);
    assert NoCarriageReturn(x + "\n" + q);
    LinesSplitAtLineFeed(x + "\n" + q, r);
  }

  lemma JoinLinesCons(x: string, b: seq<string>)
    requires |b| >= 1
    ensures JoinLines([x] + b) == x + "\n" + JoinLines(b)
  {
    assert ([x] + b)[1..] == b;
  }

  lemma LineFeedAssoc(p: string, x: string, q: string)
    ensures p + "\n" + (x + "\n" + q) == p + "\n" + x + "\n" + q
  {
  }

  /** Joining around one chosen line. */
  lemma JoinLinesAround(a: seq<string>, x: string, b: seq<string>)
    requires |a| >= 1 && |b| >= 1
    ensures JoinLines(a + [x] + b) == JoinLines(a) + "\n" + x + "\n" + JoinLines(b)
  {
    JoinLinesCons(x, b);
    assert a + [x] + b == a + ([x] + b);
    JoinLinesAppend(a, [x] + b);
    LineFeedAssoc(JoinLines(a), x, JoinLines(b));
  }

  /** Joined lines without CR have no CR. */
  lemma {:induction false} JoinLinesNoCarriageReturn(ls: seq<string>)
    requires forall i :: 0 <= i < |ls| ==> NoCarriageReturn(ls[i])
    ensures NoCarriageReturn(JoinLines(ls))
    decreases |ls|
  {
    if |ls| > 1 {
      JoinLinesNoCarriageReturn(ls[1..]);
    }
  }

  /** Blank leading characters all count towards the indent. */
  lemma {:induction false} IndentWidthAfterBlank(w: string, s: string)
    requires IsBlank(w)
    ensures IndentWidth(w + s) == |w| + IndentWidth(s)
    decreases |w|
  {
    if w == [] {
      assert w + s == s;
    } else {
      var ws := w + s;
      assert ws[1..] == w[1..] + s;
      assert IsWhitespace(ws[0]);
      assert IndentWidth(ws) == 1 + IndentWidth(ws[1..]);
      assert IsBlank(w[1..]) by {
        forall i | 0 <= i < |w[1..]| ensures IsWhitespace(w[1..][i]) {
          assert w[1..][i] == w[i + 1];
        }
      }
      IndentWidthAfterBlank(w[1..], s);
    }
  }
}

