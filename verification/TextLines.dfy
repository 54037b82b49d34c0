/** The string operations of Python that the PEM reader uses: `strip`, `splitlines`, `join`, `in`. */
module TextLines {

  /** The characters `splitlines` splits at. */
  predicate IsLineBreak(c: char) {
    var k := c as int;
    10 <= k <= 13 || 28 <= k <= 30 || k == 0x85 || k == 0x2028 || k == 0x2029
  }

  /** The characters `strip` removes. */
  predicate IsSpace(c: char) {
    var k := c as int;
    || IsLineBreak(c) || k == 9 || k == 31 || k == 32 || k == 0xA0 || k == 0x1680 || 0x2000 <= k <= 0x200A
    || k == 0x202F || k == 0x205F || k == 0x3000
  }

  const LINE_BREAKS: set<int> := {0x0A, 0x0B, 0x0C, 0x0D, 0x1C, 0x1D, 0x1E, 0x85, 0x2028, 0x2029}

  const SPACES: set<int> := {
    0x09, 0x1F, 0x20, 0xA0, 0x1680, 0x2000, 0x2001, 0x2002, 0x2003, 0x2004, 0x2005, 0x2006, 0x2007, 0x2008, 0x2009,
    0x200A, 0x202F, 0x205F, 0x3000}

  /** The characters are those of Python's tables, one by one. */
  lemma CharactersAreTheTables(c: char)
    ensures IsLineBreak(c) <==> c as int in LINE_BREAKS
    ensures IsSpace(c) <==> c as int in LINE_BREAKS + SPACES
  {
  }

  predicate OneLine(s: string) {
    forall i :: 0 <= i < |s| ==> !IsLineBreak(s[i])
  }

  lemma OneLineConcat(a: string, b: string)
    ensures OneLine(a + b) <==> OneLine(a) && OneLine(b)
  {
    assert forall i :: 0 <= i < |a| ==> (a + b)[i] == a[i];
    assert forall i :: 0 <= i < |b| ==> (a + b)[|a| + i] == b[i];
  }

  function StripLeft(s: string): string {
    if s != "" && IsSpace(s[0]) then StripLeft(s[1..]) else s
  }

  function StripRight(s: string): string {
    if s != "" && IsSpace(s[|s| - 1]) then StripRight(s[..|s| - 1]) else s
  }

  function Strip(s: string): string {
    StripRight(StripLeft(s))
  }

  function FirstBreak(s: string): (n: nat)
    ensures n <= |s|
    ensures OneLine(s[..n])
    ensures n < |s| ==> IsLineBreak(s[n])
  {
    if s == "" || IsLineBreak(s[0]) then 0
    else
      var n := FirstBreak(s[1..]);
      assert s[..n + 1] == [s[0]] + s[1..][..n];
      n + 1
  }

  /** A carriage return and the line feed after it are one break. */
  function BreakWidth(s: string, n: nat): (w: nat)
    requires n < |s|
    ensures 1 <= w && n + w <= |s|
  {
    if s[n] == '\r' && n + 1 < |s| && s[n + 1] == '\n' then 2 else 1
  }

  /** `splitlines`: no empty line after a final break. */
  function SplitLines(s: string): seq<string>
    decreases |s|
  {
    if s == "" then []
    else
      var n := FirstBreak(s);
      if n == |s| then [s] else [s[..n]] + SplitLines(s[n + BreakWidth(s, n)..])
  }

  function Concat(lines: seq<string>): string {
    if lines == [] then "" else lines[0] + Concat(lines[1..])
  }

  /** The lines, each ended by a line feed. */
  function Unlines(lines: seq<string>): string {
    if lines == [] then "" else lines[0] + "\n" + Unlines(lines[1..])
  }

  predicate HasAt(text: string, needle: string, i: nat) {
    i + |needle| <= |text| && text[i..i + |needle|] == needle
  }

  /** `needle in text`. */
  predicate Contains(text: string, needle: string) {
    exists i: nat | i <= |text| :: HasAt(text, needle, i)
  }

  lemma ContainsExactly(text: string, needle: string)
    ensures Contains(text, needle) <==> exists before, after :: text == before + needle + after
  {
    if Contains(text, needle) {
      var i: nat :| i <= |text| && HasAt(text, needle, i);
      assert text == text[..i] + needle + text[i + |needle|..];
    }
    if before, after :| text == before + needle + after {
      assert HasAt(text, needle, |before|);
    }
  }

  // ------------------------------------------------------------------ what they do to printed text

  lemma {:induction false} FirstBreakIs(s: string, n: nat)
    requires n < |s| && OneLine(s[..n]) && IsLineBreak(s[n])
    ensures FirstBreak(s) == n
  {
    if n > 0 {
      assert s[..n][0] == s[0];
      assert s[1..][..n - 1] == s[..n][1..];
      FirstBreakIs(s[1..], n - 1);
    }
  }

  /** The first line of a text ends at its first break. */
  lemma SplitStep(s: string, n: nat)
    requires n < |s| && OneLine(s[..n]) && IsLineBreak(s[n])
    ensures SplitLines(s) == [s[..n]] + SplitLines(s[n + BreakWidth(s, n)..])
  {
    FirstBreakIs(s, n);
  }

  lemma Assoc<T>(a: seq<T>, b: seq<T>, c: seq<T>)
    ensures (a + b) + c == a + (b + c)
  {
  }

  lemma SplitOneLine(line: string)
    requires OneLine(line) && line != ""
    ensures SplitLines(line) == [line]
  {
  }

  lemma SplitLineThenRest(line: string, y: string)
    requires OneLine(line)
    ensures SplitLines(line + "\n" + y) == [line] + SplitLines(y)
  {
    var s := line + "\n" + y;
    assert s[..|line|] == line && s[|line|] == '\n';
    SplitStep(s, |line|);
    assert s[|line| + 1..] == y;
  }

  /** A carriage return ends a line as a line feed does, and with a line feed after it they are one break. */
  lemma CarriageReturnEndsALine(line: string, y: string)
    requires OneLine(line)
    ensures SplitLines(line + "\r\n" + y) == [line] + SplitLines(y)
    ensures y == "" || y[0] != '\n' ==> SplitLines(line + "\r" + y) == [line] + SplitLines(y)
  {
    var s, t := line + "\r\n" + y, line + "\r" + y;
    assert s[..|line|] == line && s[|line|] == '\r' && s[|line| + 1] == '\n';
    SplitStep(s, |line|);
    assert s[|line| + 2..] == y;
    if y == "" || y[0] != '\n' {
      assert t[..|line|] == line && t[|line|] == '\r';
      assert y != "" ==> t[|line| + 1] == y[0];
      SplitStep(t, |line|);
      assert t[|line| + 1..] == y;
    }
  }

  /** A line feed separates what comes before it from what comes after, whatever breaks come before. */
  lemma {:induction false} SplitAtLineFeed(x: string, y: string)
    ensures SplitLines(x + "\n" + y) == SplitLines(x + "\n") + SplitLines(y)
    decreases |x|, 2
  {
    var n := FirstBreak(x);
    if n == |x| {
      assert x[..n] == x;
      SplitLineThenRest(x, y);
      SplitLineThenRest(x, "");
      assert x + "\n" + "" == x + "\n" && SplitLines("") == [];
    } else {
      SplitInside(x, y, n);
    }
  }

  lemma SameFirstLine(x: string, s: string, t: string, n: nat)
    requires n < |x| && x < s && s <= t
    ensures s[..n] == x[..n] && t[..n] == x[..n] && s[n] == t[n] == x[n]
    ensures BreakWidth(s, n) == BreakWidth(t, n)
  {
    assert s[n + 1] == t[n + 1];
  }

  lemma DropWithin(a: string, b: string, k: nat)
    requires k <= |a|
    ensures (a + b)[k..] == a[k..] + b
  {
  }

  lemma {:induction false} SplitInside(x: string, y: string, n: nat)
    requires n < |x| && OneLine(x[..n]) && IsLineBreak(x[n])
    ensures SplitLines(x + "\n" + y) == SplitLines(x + "\n") + SplitLines(y)
    decreases |x|, 1
  {
    var s := x + "\n";
    var t := s + y;
    var w := BreakWidth(s, n);
    SameFirstLine(x, s, t, n);
    SplitStep(s, n);
    SplitStep(t, n);
    RestInside(x, y, n + w);
    Assoc([x[..n]], SplitLines(s[n + w..]), SplitLines(y));
  }

  lemma {:induction false} RestInside(x: string, y: string, k: nat)
    requires 0 < k <= |x| + 1
    ensures SplitLines((x + "\n" + y)[k..]) == SplitLines((x + "\n")[k..]) + SplitLines(y)
    decreases |x|, 0
  {
    DropWithin(x + "\n", y, k);
    if k <= |x| {
      DropWithin(x, "\n", k);
      SplitAtLineFeed(x[k..], y);
    } else {
      assert (x + "\n")[k..] == "" && "" + y == y;
    }
  }

  ghost predicate AllOneLine(lines: seq<string>) {
    forall line :: line in lines ==> OneLine(line)
  }

  lemma {:induction false} SplitUnlines(lines: seq<string>, y: string)
    requires AllOneLine(lines)
    ensures SplitLines(Unlines(lines) + y) == lines + SplitLines(y)
  {
    if lines == [] {
      assert Unlines(lines) + y == y;
    } else {
      var first, rest := lines[0], Unlines(lines[1..]) + y;
      SplitUnlines(lines[1..], y);
      Assoc(first + "\n", Unlines(lines[1..]), y);
      SplitLineThenRest(first, rest);
      assert lines == [first] + lines[1..];
      Assoc([first], lines[1..], SplitLines(y));
    }
  }

  lemma {:induction false} UnlinesAppend(a: seq<string>, b: seq<string>)
    ensures Unlines(a + b) == Unlines(a) + Unlines(b)
  {
    if a == [] {
      assert a + b == b;
    } else {
      UnlinesAppend(a[1..], b);
      assert (a + b)[1..] == a[1..] + b;
      Assoc(a[0] + "\n", Unlines(a[1..]), Unlines(b));
    }
  }

  lemma UnlinesOne(line: string)
    ensures Unlines([line]) == line + "\n"
  {
    assert Unlines([line]) == line + "\n" + Unlines([]);
  }

  /** Text that begins and ends with a visible character loses only the final line feed. */
  lemma StripFinalLineFeed(s: string)
    requires s != "" && !IsSpace(s[0]) && !IsSpace(s[|s| - 1])
    ensures Strip(s + "\n") == s
  {
    var t := s + "\n";
    assert t[0] == s[0] && t[|t| - 1] == '\n' && t[..|t| - 1] == s;
    assert StripLeft(t) == t;
    assert StripRight(t) == StripRight(s) == s;
  }

  // ------------------------------------------------------------------ wrapping

  /** Lines of `width` characters, the last one shorter; the empty text is one empty line. */
  function Wrap(s: string, width: nat): (lines: seq<string>)
    requires width > 0
    ensures lines != []
    decreases |s|
  {
    if |s| <= width then [s] else [s[..width]] + Wrap(s[width..], width)
  }

  lemma {:induction false} WrapThenConcat(s: string, width: nat)
    requires width > 0
    ensures Concat(Wrap(s, width)) == s
    ensures OneLine(s) ==> AllOneLine(Wrap(s, width))
    ensures forall i :: 0 <= i < |Wrap(s, width)| ==>
              |Wrap(s, width)[i]| <= width && (i < |Wrap(s, width)| - 1 ==> |Wrap(s, width)[i]| == width)
    decreases |s|
  {
    if |s| <= width {
      assert Concat([s]) == s + Concat([]);
    } else {
      WrapThenConcat(s[width..], width);
      assert ([s[..width]] + Wrap(s[width..], width))[1..] == Wrap(s[width..], width);
      assert s == s[..width] + s[width..];
    }
  }
}
