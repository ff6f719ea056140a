/** The string operations the source takes from Python's `str`: `splitlines`,
    `sep.join`, `split` on one character, `str(n)` for a natural number and
    `' ' * n`. */
module Text {

  /** The characters `str.splitlines` treats as line boundaries. */
  predicate IsLineBreak(c: char)
  {
    c == '\n' || c == '\r' || c == '\U{000B}' || c == '\U{000C}' ||
    c == '\U{001C}' || c == '\U{001D}' || c == '\U{001E}' ||
    c == '\U{0085}' || c == '\U{2028}' || c == '\U{2029}'
  }

  predicate NoLineBreak(s: string)
  {
    forall k :: 0 <= k < |s| ==> !IsLineBreak(s[k])
  }

  /** Index of the first line boundary in `s`, or `|s|` when there is none. */
  function FirstBreak(s: string): (k: nat)
    ensures k <= |s|
    ensures k < |s| ==> IsLineBreak(s[k])
    ensures NoLineBreak(s[..k])
  {
    if s == [] then 0
    else if IsLineBreak(s[0]) then 0
    else
      var k := 1 + FirstBreak(s[1..]);
      assert s[..k] == [s[0]] + s[1..][..k - 1];
      k
  }

  /** `s.splitlines()`: the lines of `s` without their boundaries; "\r\n" is one
      boundary, and a boundary at the very end does not open an empty last line. */
  function SplitLines(s: string): (lines: seq<string>)
    ensures forall i :: 0 <= i < |lines| ==> NoLineBreak(lines[i])
    ensures s == [] <==> lines == []
    decreases |s|
  {
    if s == [] then []
    else
      var k := FirstBreak(s);
      if k == |s| then [s]
      else
        var rest := if s[k] == '\r' && k + 1 < |s| && s[k + 1] == '\n' then k + 2 else k + 1;
        [s[..k]] + SplitLines(s[rest..])
  }

  /** A boundary `splitlines` removes: "\r\n", or one line-break character. */
  predicate IsBoundary(e: string)
  {
    e == "\r\n" || (|e| == 1 && IsLineBreak(e[0]))
  }

  /** The boundary that ended each line of `s.splitlines()`, "" for a last line that
      runs to the end of `s` (what `s.splitlines(keepends=True)` adds to each line). */
  function LineEnds(s: string): (ends: seq<string>)
    decreases |s|
  {
    if s == [] then []
    else
      var k := FirstBreak(s);
      if k == |s| then [""]
      else
        var rest := if s[k] == '\r' && k + 1 < |s| && s[k + 1] == '\n' then k + 2 else k + 1;
        [s[k..rest]] + LineEnds(s[rest..])
  }

  /** Each line followed by its boundary, concatenated. */
  function Rejoin(lines: seq<string>, ends: seq<string>): string
    requires |lines| == |ends|
  {
    if lines == [] then "" else lines[0] + ends[0] + Rejoin(lines[1..], ends[1..])
  }

  /** `Rejoin` puts a first line and its boundary before the rest. */
  lemma RejoinCons(line: string, end: string, lines: seq<string>, ends: seq<string>)
    requires |lines| == |ends|
    ensures Rejoin([line] + lines, [end] + ends) == line + end + Rejoin(lines, ends)
  {
    assert ([line] + lines)[1..] == lines && ([end] + ends)[1..] == ends;
  }

  /** Where the text after the first line starts: past the first boundary. */
  function AfterFirstLine(s: string): (rest: nat)
    requires FirstBreak(s) < |s|
    ensures FirstBreak(s) < rest <= |s|
  {
    var k := FirstBreak(s);
    if s[k] == '\r' && k + 1 < |s| && s[k + 1] == '\n' then k + 2 else k + 1
  }

  /** One step of `splitlines`: the first line, its boundary, and the lines of the rest. */
  lemma SplitLinesStep(s: string)
    requires s != [] && FirstBreak(s) < |s|
    ensures SplitLines(s) == [s[..FirstBreak(s)]] + SplitLines(s[AfterFirstLine(s)..])
    ensures LineEnds(s) == [s[FirstBreak(s)..AfterFirstLine(s)]] + LineEnds(s[AfterFirstLine(s)..])
  {
  }

  /** Cutting a text at two points and gluing the pieces back gives the text. */
  lemma SliceThree(s: string, k: int, rest: int)
    requires 0 <= k <= rest <= |s|
    ensures s[..k] + s[k..rest] + s[rest..] == s
  {
  }

  /** Text whose first boundary is at its end, or that has none, is a last line. */
  lemma SplitLinesLast(s: string)
    requires s != [] && FirstBreak(s) == |s|
    ensures SplitLines(s) == [s] && LineEnds(s) == [""]
  {
  }

  /** `splitlines` loses nothing but the boundaries: putting each line's boundary back
      gives `s` again. */
  lemma {:induction false} SplitLinesRoundTrip(s: string)
    ensures |LineEnds(s)| == |SplitLines(s)|
    ensures Rejoin(SplitLines(s), LineEnds(s)) == s
    decreases |s|
  {
    if s != [] && FirstBreak(s) < |s| {
      var k, rest := FirstBreak(s), AfterFirstLine(s);
      var tail := s[rest..];
      SplitLinesRoundTrip(tail);
      SplitLinesStep(s);
      RejoinCons(s[..k], s[k..rest], SplitLines(tail), LineEnds(tail));
      SliceThree(s, k, rest);
    } else if s != [] {
      SplitLinesLast(s);
      RejoinCons(s, "", [], []);
    }
  }

  /** Every boundary `splitlines` removes is a line break or "\r\n"; only a non-empty
      last line may end without one. */
  lemma {:induction false} SplitLinesBoundaries(s: string)
    ensures |LineEnds(s)| == |SplitLines(s)|
    ensures forall i :: 0 <= i < |LineEnds(s)| ==>
      IsBoundary(LineEnds(s)[i]) ||
      (i == |LineEnds(s)| - 1 && LineEnds(s)[i] == "" && SplitLines(s)[i] != "")
    decreases |s|
  {
    if s != [] && FirstBreak(s) < |s| {
      var k, rest := FirstBreak(s), AfterFirstLine(s);
      var tail := s[rest..];
      SplitLinesBoundaries(tail);
      SplitLinesStep(s);
      assert IsBoundary(s[k..rest]) by {
        if rest == k + 2 {
          assert s[k..rest] == [s[k], s[k + 1]];
        }
      }
      BoundariesCons(s[..k], s[k..rest], SplitLines(tail), LineEnds(tail));
    } else if s != [] {
      SplitLinesLast(s);
    }
  }

  /** A line with a real boundary in front of lines that end well ends well too. */
  lemma BoundariesCons(line: string, end: string, lines: seq<string>, ends: seq<string>)
    requires |lines| == |ends| && IsBoundary(end)
    requires forall i :: 0 <= i < |ends| ==>
      IsBoundary(ends[i]) || (i == |ends| - 1 && ends[i] == "" && lines[i] != "")
    ensures forall i :: 0 <= i < |ends| + 1 ==>
      IsBoundary(([end] + ends)[i]) ||
      (i == |ends| && ([end] + ends)[i] == "" && ([line] + lines)[i] != "")
  {
    forall i | 1 <= i < |ends| + 1
      ensures ([end] + ends)[i] == ends[i - 1] && ([line] + lines)[i] == lines[i - 1]
    {
    }
  }

  /** "\r\n" is one boundary: a boundary "\r" is never followed by "\n". */
  lemma {:induction false} SplitLinesKeepsCRLF(s: string)
    ensures |LineEnds(s)| == |SplitLines(s)|
    ensures forall i :: 0 <= i < |LineEnds(s)| - 1 && LineEnds(s)[i] == "\r" ==>
      !StartsWithNewline(Rejoin(SplitLines(s)[i + 1..], LineEnds(s)[i + 1..]))
    decreases |s|
  {
    SplitLinesRoundTrip(s);
    if s != [] && FirstBreak(s) < |s| {
      var rest := AfterFirstLine(s);
      var tail := s[rest..];
      SplitLinesStep(s);
      SplitLinesKeepsCRLF(tail);
      SplitLinesRoundTrip(tail);
      var lines, ends := SplitLines(s), LineEnds(s);
      forall i | 0 <= i < |ends| - 1 && ends[i] == "\r"
        ensures !StartsWithNewline(Rejoin(lines[i + 1..], ends[i + 1..]))
      {
        if i == 0 {
          assert lines[1..] == SplitLines(tail) && ends[1..] == LineEnds(tail);
        } else {
          assert lines[i + 1..] == SplitLines(tail)[i..] && ends[i + 1..] == LineEnds(tail)[i..];
        }
      }
    }
  }

  predicate StartsWithNewline(t: string)
  {
    |t| > 0 && t[0] == '\n'
  }

  /** A line followed by "\n" is split off as the first line. */
  lemma SplitLinesCons(line: string, rest: string)
    requires NoLineBreak(line)
    ensures SplitLines(line + "\n" + rest) == [line] + SplitLines(rest)
  {
    var s := line + ("\n" + rest);
    assert s == line + "\n" + rest;
    FirstBreakOf(line, "\n" + rest);
    var k := |line|;
    assert s[k] == '\n';
    assert s[..k] == line;
    assert s[k + 1..] == rest;
    assert SplitLines(s) == [s[..k]] + SplitLines(s[k + 1..]);
  }

  lemma FirstBreakOf(a: string, b: string)
    requires NoLineBreak(a)
    requires b != [] && IsLineBreak(b[0])
    ensures FirstBreak(a + b) == |a|
  {
    if a != [] {
      assert (a + b)[1..] == a[1..] + b;
      FirstBreakOf(a[1..], b);
    }
  }

  /** `sep.join(parts)`. */
  function JoinWith(parts: seq<string>, sep: string): string
  {
    if |parts| == 0 then ""
    else if |parts| == 1 then parts[0]
    else JoinWith(parts[..|parts| - 1], sep) + sep + parts[|parts| - 1]
  }

  /** `sep.join(parts)` starts with the first part and ends with the last. */
  lemma {:induction false} JoinWithEnds(parts: seq<string>, sep: string)
    requires |parts| >= 1
    ensures |parts[0]| <= |JoinWith(parts, sep)|
    ensures JoinWith(parts, sep)[..|parts[0]|] == parts[0]
    ensures JoinWith(parts, sep)[|JoinWith(parts, sep)| - |parts[|parts| - 1]|..] == parts[|parts| - 1]
  {
    if |parts| > 1 {
      var init := parts[..|parts| - 1];
      JoinWithEnds(init, sep);
      assert init[0] == parts[0];
      var s := JoinWith(parts, sep);
      assert s == JoinWith(init, sep) + sep + parts[|parts| - 1];
      assert s[..|parts[0]|] == JoinWith(init, sep)[..|parts[0]|];
    }
  }

  /** `sep.join` keeps out a character that neither the parts nor the separator hold. */
  lemma {:induction false} JoinWithAvoids(parts: seq<string>, sep: string, c: char)
    requires c !in sep
    requires forall i :: 0 <= i < |parts| ==> c !in parts[i]
    ensures c !in JoinWith(parts, sep)
  {
    if |parts| > 1 {
      JoinWithAvoids(parts[..|parts| - 1], sep, c);
    }
  }

  /** Index of the last occurrence of `c` in `s`, if any. */
  function LastIndexOf(s: string, c: char): (k: int)
    ensures -1 <= k < |s|
    ensures k >= 0 ==> s[k] == c
    ensures forall i :: k < i < |s| ==> s[i] != c
  {
    if s == [] then -1
    else if s[|s| - 1] == c then |s| - 1
    else LastIndexOf(s[..|s| - 1], c)
  }

  /** `s.split(c)`: the pieces between occurrences of `c`; always at least one. */
  function SplitOn(s: string, c: char): (pieces: seq<string>)
    ensures |pieces| >= 1
    ensures forall i :: 0 <= i < |pieces| ==> c !in pieces[i]
    decreases |s|
  {
    var k := LastIndexOf(s, c);
    if k < 0 then [s]
    else SplitOn(s[..k], c) + [s[k + 1..]]
  }

  /** Splitting on the separator undoes joining with it, as long as no part
      contains the separator. */
  lemma {:induction false} SplitOnJoinWith(parts: seq<string>, c: char)
    requires |parts| >= 1
    requires forall i :: 0 <= i < |parts| ==> c !in parts[i]
    ensures SplitOn(JoinWith(parts, [c]), c) == parts
  {
    if |parts| > 1 {
      var init, last := parts[..|parts| - 1], parts[|parts| - 1];
      var head := JoinWith(init, [c]);
      var s := head + [c] + last;
      assert JoinWith(parts, [c]) == s;
      assert LastIndexOf(s, c) == |head| by {
        LastIndexPast(head + [c], last, c);
      }
      assert s[..|head|] == head;
      assert s[|head| + 1..] == last;
      SplitOnJoinWith(init, c);
      assert init + [last] == parts;
    }
  }

  lemma {:induction false} LastIndexPast(a: string, b: string, c: char)
    requires a != [] && a[|a| - 1] == c
    requires c !in b
    ensures LastIndexOf(a + b, c) == |a| - 1
    decreases |b|
  {
    if b != [] {
      var s := a + b;
      assert s[..|s| - 1] == a + b[..|b| - 1];
      LastIndexPast(a, b[..|b| - 1], c);
    } else {
      assert a + b == a;
    }
  }

  /** `' ' * n`. */
  function Spaces(n: int): (s: string)
    ensures |s| == if n < 0 then 0 else n
    ensures forall k :: 0 <= k < |s| ==> s[k] == ' '
  {
    if n <= 0 then "" else Spaces(n - 1) + " "
  }

  function Digit(d: nat): (c: char)
    requires d < 10
  {
    "0123456789"[d]
  }

  function DigitValue(c: char): (d: nat)
  {
    if '0' <= c <= '9' then (c - '0') as nat else 0
  }

  predicate IsDigits(s: string)
  {
    forall k :: 0 <= k < |s| ==> '0' <= s[k] <= '9'
  }

  /** `str(n)` for a natural number: its decimal digits, most significant first,
      without leading zeros. */
  function DecimalString(n: nat): (s: string)
    ensures |s| >= 1 && IsDigits(s)
    ensures |s| > 1 ==> s[0] != '0'
  {
    if n < 10 then [Digit(n)] else DecimalString(n / 10) + [Digit(n % 10)]
  }

  /** The value of a string of decimal digits (`int(s)`). */
  function DecimalValue(s: string): nat
  {
    if s == [] then 0 else DecimalValue(s[..|s| - 1]) * 10 + DigitValue(s[|s| - 1])
  }

  /** `int(str(n)) == n`. */
  lemma {:induction false} DecimalRoundTrip(n: nat)
    ensures DecimalValue(DecimalString(n)) == n
  {
    var s := DecimalString(n);
    if n >= 10 {
      var init := DecimalString(n / 10);
      DecimalRoundTrip(n / 10);
      assert s[..|s| - 1] == init;
      assert DigitValue(s[|s| - 1]) == n % 10 by { DigitRoundTrip(n % 10); }
      assert DecimalValue(s) == DecimalValue(init) * 10 + n % 10;
    } else {
      DigitRoundTrip(n);
    }
  }

  /** A digit reads back as its value. */
  lemma DigitRoundTrip(d: nat)
    requires d < 10
    ensures '0' <= Digit(d) <= '9' && DigitValue(Digit(d)) == d
  {
  }
}
