/**
 * Character classes, Ruby's string ordering (by character code), and the line splitting
 * and joining that `solution` performs with `String#split(/\n/)` and `Array#join("\n")`.
 */
module Text {

  // ---------------------------------------------------------------------------
  // Character classes (ASCII, as Ruby's regular expressions treat them)
  // ---------------------------------------------------------------------------

  predicate IsDigit(c: char) { '0' <= c <= '9' }
  predicate IsUpper(c: char) { 'A' <= c <= 'Z' }
  predicate IsLower(c: char) { 'a' <= c <= 'z' }
  predicate IsLetter(c: char) { IsUpper(c) || IsLower(c) }

  /** Ruby's `\w`: letters, digits and the underscore. */
  predicate IsWordChar(c: char) { IsLetter(c) || IsDigit(c) || c == '_' }

  /** Ruby's `\s`: space, tab, line feed, carriage return, form feed and vertical tab. */
  predicate IsSpace(c: char) {
    c == ' ' || c == '\t' || c == '\n' || c == '\r' || c == '\U{000C}' || c == '\U{000B}'
  }

  /** The two repeated classes of the line expression: `\w` and `[a-z]`. */
  datatype CharClass = Word | Lower

  predicate InClass(cls: CharClass, c: char) {
    match cls
    case Word => IsWordChar(c)
    case Lower => IsLower(c)
  }

  predicate AllDigits(s: string) { forall k :: 0 <= k < |s| ==> IsDigit(s[k]) }

  /** `s` holds the text `x` starting at position `at`. */
  predicate HasAt(s: string, at: nat, x: string) {
    at + |x| <= |s| && forall k :: 0 <= k < |x| ==> s[at + k] == x[k]
  }

  /** The characters of `s` from position `i` up to, not including, `j`: a captured group. */
  function Substring(s: string, i: nat, j: nat): (r: string)
    requires i <= j <= |s|
    ensures |r| == j - i
    ensures forall k :: 0 <= k < |r| ==> r[k] == s[i + k]
    decreases j - i
  {
    if i == j then [] else [s[i]] + Substring(s, i + 1, j)
  }

  /** A substring is the slice `s[i..j]`. */
  lemma SubstringIsSlice(s: string, i: nat, j: nat)
    requires i <= j <= |s|
    ensures Substring(s, i, j) == s[i..j]
  {
    assert forall k :: 0 <= k < j - i ==> s[i..j][k] == s[i + k];
  }

  /** `x` stands at `at` exactly when the substring of its length there is `x`. */
  lemma HasAtSubstring(s: string, at: nat, x: string)
    requires at + |x| <= |s|
    ensures HasAt(s, at, x) <==> Substring(s, at, at + |x|) == x
  {
  }

  /**
   * Length of the longest run of characters of class `cls` that starts at position `start`.
   * Greedy regular-expression repetitions (`\w+`, `[a-z]+`) consume exactly this run.
   */
  function RunLength(s: string, start: nat, cls: CharClass): (n: nat)
    requires start <= |s|
    decreases |s| - start
    ensures start + n <= |s|
    ensures start + n < |s| ==> !InClass(cls, s[start + n])
  {
    if start < |s| && InClass(cls, s[start]) then 1 + RunLength(s, start + 1, cls) else 0
  }

  /** Every character of the run belongs to the class. */
  lemma {:induction false} RunLengthClass(s: string, start: nat, cls: CharClass)
    requires start <= |s|
    ensures forall k :: start <= k < start + RunLength(s, start, cls) ==> InClass(cls, s[k])
    decreases |s| - start
  {
    if start < |s| && InClass(cls, s[start]) {
      RunLengthClass(s, start + 1, cls);
    }
  }

  /** A run is as long as the class members that stand before the first non-member. */
  lemma RunLengthIs(s: string, start: nat, cls: CharClass, m: nat)
    requires start + m <= |s|
    requires forall k :: start <= k < start + m ==> InClass(cls, s[k])
    requires start + m < |s| ==> !InClass(cls, s[start + m])
    ensures RunLength(s, start, cls) == m
  {
    RunLengthClass(s, start, cls);
  }

  /**
   * Where a copy of `x` stands at `at`, the run from `at + from` covers the rest of `x`
   * when that rest is in the class and the character after `x` is not.
   */
  lemma RunLengthOfCopy(s: string, at: nat, cls: CharClass, x: string, from: nat)
    requires from <= |x| && HasAt(s, at, x)
    requires forall k :: from <= k < |x| ==> InClass(cls, x[k])
    requires at + |x| < |s| ==> !InClass(cls, s[at + |x|])
    ensures RunLength(s, at + from, cls) == |x| - from
  {
    assert forall k :: at + from <= k < at + |x| ==> s[k] == x[k - at];
    RunLengthIs(s, at + from, cls, |x| - from);
  }

  // ---------------------------------------------------------------------------
  // Ruby's String#<=> : lexicographic by character code (for UTF-8 text this is the byte
  // order Ruby uses); a proper prefix sorts first
  // ---------------------------------------------------------------------------

  predicate LexLess(s: string, t: string)
    decreases |s|
  {
    |t| > 0 && (|s| == 0 || s[0] < t[0] || (s[0] == t[0] && LexLess(s[1..], t[1..])))
  }

  lemma {:induction false} LexLessIrreflexive(s: string)
    ensures !LexLess(s, s)
  {
    if |s| > 0 {
      LexLessIrreflexive(s[1..]);
    }
  }

  lemma {:induction false} LexLessTransitive(s: string, t: string, u: string)
    requires LexLess(s, t) && LexLess(t, u)
    ensures LexLess(s, u)
    decreases |s|
  {
    if |s| > 0 && s[0] == t[0] && t[0] == u[0] {
      LexLessTransitive(s[1..], t[1..], u[1..]);
    }
  }

  /** Any two different strings are ordered one way or the other. */
  lemma {:induction false} LexLessTotal(s: string, t: string)
    requires s != t
    ensures LexLess(s, t) || LexLess(t, s)
    decreases |s|
  {
    if |s| > 0 && |t| > 0 && s[0] == t[0] {
      assert s == [s[0]] + s[1..] && t == [t[0]] + t[1..];
      LexLessTotal(s[1..], t[1..]);
    }
  }

  // ---------------------------------------------------------------------------
  // Line splitting and joining
  // ---------------------------------------------------------------------------

  predicate NoNewline(s: string) { forall k :: 0 <= k < |s| ==> s[k] != '\n' }

  /** Every newline-separated segment of `s`, empty ones included: k newlines give k + 1 segments. */
  function Segments(s: string): (parts: seq<string>)
    ensures |parts| >= 1
  {
    if s == [] then [[]]
    else
      var rest := Segments(s[1..]);
      if s[0] == '\n' then [[]] + rest else [[s[0]] + rest[0]] + rest[1..]
  }

  function DropTrailingEmpty(parts: seq<string>): (r: seq<string>)
    ensures |r| <= |parts| && r == parts[..|r|]
    ensures forall k :: |r| <= k < |parts| ==> parts[k] == []
    ensures |r| > 0 ==> r[|r| - 1] != []
  {
    if |parts| > 0 && parts[|parts| - 1] == [] then DropTrailingEmpty(parts[..|parts| - 1]) else parts
  }

  /** What `DropTrailingEmpty` removes is a run of empty strings. */
  lemma DropTrailingEmptyPads(parts: seq<string>)
    ensures parts == DropTrailingEmpty(parts) + seq(|parts| - |DropTrailingEmpty(parts)|, _ => [])
  {
    var r := DropTrailingEmpty(parts);
    assert forall k :: 0 <= k < |parts| ==> parts[k] == (r + seq(|parts| - |r|, _ => []))[k];
  }

  /** Ruby's `s.split(/\n/)`: the segments, with all trailing empty segments removed. */
  function Split(s: string): seq<string> {
    DropTrailingEmpty(Segments(s))
  }

  /** Ruby's `lines.join("\n")`. */
  function Join(lines: seq<string>): string {
    if |lines| == 0 then []
    else if |lines| == 1 then lines[0]
    else lines[0] + "\n" + Join(lines[1..])
  }

  lemma {:induction false} SegmentsHaveNoNewline(s: string)
    ensures forall k :: 0 <= k < |Segments(s)| ==> NoNewline(Segments(s)[k])
  {
    if s != [] {
      SegmentsHaveNoNewline(s[1..]);
    }
  }

  /** A leading empty segment joins as a leading newline. */
  lemma JoinEmptyHead(rest: seq<string>)
    requires |rest| >= 1
    ensures Join([[]] + rest) == "\n" + Join(rest)
  {
    JoinCons([], rest);
  }

  /** A character put in front of the first segment stands in front of the join. */
  lemma JoinCharHead(c: char, rest: seq<string>)
    requires |rest| >= 1
    ensures Join([[c] + rest[0]] + rest[1..]) == [c] + Join(rest)
  {
    var first, more := rest[0], rest[1..];
    assert rest == [first] + more;
    if more == [] {
      assert [[c] + first] + more == [[c] + first];
    } else {
      JoinCharHeadLong(c, first, more);
    }
  }

  /** A line in front of at least one more is followed by a newline in the join. */
  lemma JoinCons(first: string, more: seq<string>)
    requires |more| >= 1
    ensures Join([first] + more) == first + "\n" + Join(more)
  {
    assert ([first] + more)[1..] == more;
  }

  lemma JoinCharHeadLong(c: char, first: string, more: seq<string>)
    requires |more| >= 1
    ensures Join([[c] + first] + more) == [c] + Join([first] + more)
  {
    JoinCons([c] + first, more);
    JoinCons(first, more);
  }

  /** Joining the segments gives back the text. */
  lemma {:induction false} JoinSegments(s: string)
    ensures Join(Segments(s)) == s
  {
    if s != [] {
      var rest := Segments(s[1..]);
      JoinSegments(s[1..]);
      if s[0] == '\n' {
        JoinEmptyHead(rest);
      } else {
        JoinCharHead(s[0], rest);
      }
      assert s == [s[0]] + s[1..];
    }
  }

  lemma {:induction false} SegmentsOfLine(a: string)
    requires NoNewline(a)
    ensures Segments(a) == [a]
  {
    if a != [] {
      SegmentsOfLine(a[1..]);
      assert a == [a[0]] + a[1..];
    }
  }

  lemma {:induction false} SegmentsAfterLine(a: string, b: string)
    requires NoNewline(a)
    ensures Segments(a + "\n" + b) == [a] + Segments(b)
  {
    if a == [] {
      assert a + "\n" + b == "\n" + b;
      assert ("\n" + b)[1..] == b;
    } else {
      SegmentsAfterLine(a[1..], b);
      assert (a + "\n" + b)[1..] == a[1..] + "\n" + b;
      assert a == [a[0]] + a[1..];
    }
  }

  /** For lines free of newlines, splitting their join into segments recovers them. */
  lemma {:induction false} SegmentsOfJoin(lines: seq<string>)
    requires |lines| >= 1
    requires forall k :: 0 <= k < |lines| ==> NoNewline(lines[k])
    ensures Segments(Join(lines)) == lines
  {
    if |lines| == 1 {
      SegmentsOfLine(lines[0]);
    } else {
      SegmentsOfJoin(lines[1..]);
      SegmentsAfterLine(lines[0], Join(lines[1..]));
      assert lines == [lines[0]] + lines[1..];
    }
  }

  /**
   * Splitting the join of lines that hold no newline, the last of them non-empty,
   * gives back exactly those lines (and so the same number of them).
   */
  lemma SplitJoin(lines: seq<string>)
    requires forall k :: 0 <= k < |lines| ==> NoNewline(lines[k])
    requires |lines| > 0 ==> lines[|lines| - 1] != []
    ensures Split(Join(lines)) == lines
  {
    if |lines| > 0 {
      SegmentsOfJoin(lines);
    }
  }

  function Newlines(n: nat): (r: string) {
    seq(n, _ => '\n')
  }

  lemma {:induction false} JoinTrailingEmpty(lines: seq<string>, n: nat)
    ensures |lines| > 0 ==> Join(lines + seq(n, _ => [])) == Join(lines) + Newlines(n)
    ensures |lines| == 0 && n > 0 ==> Join(seq(n, _ => [])) == Newlines(n - 1)
  {
    var empties: seq<string> := seq(n, _ => []);
    if n > 0 {
      var fewer: seq<string> := seq(n - 1, _ => []);
      JoinTrailingEmpty(lines, n - 1);
      if |lines| > 0 {
        assert lines + empties == (lines + fewer) + [[]];
        JoinSnocEmpty(lines + fewer);
        assert Newlines(n) == Newlines(n - 1) + "\n";
      } else {
        if n > 1 {
          assert empties == fewer + [[]];
          JoinSnocEmpty(fewer);
          assert Newlines(n - 1) == Newlines(n - 2) + "\n";
        }
      }
    } else {
      assert lines + empties == lines;
      assert Newlines(n) == [];
    }
  }

  lemma {:induction false} JoinSnocEmpty(lines: seq<string>)
    requires |lines| > 0
    ensures Join(lines + [[]]) == Join(lines) + "\n"
  {
    if |lines| == 1 {
      assert (lines + [[]])[1..] == [[]];
    } else {
      assert (lines + [[]])[1..] == lines[1..] + [[]];
      JoinSnocEmpty(lines[1..]);
    }
  }

  /**
   * Splitting loses only trailing newlines: the join of the split lines is a prefix of
   * the text, and every character after it is a newline.
   */
  lemma SplitLosesOnlyTrailingNewlines(s: string)
    ensures |Join(Split(s))| <= |s|
    ensures s == Join(Split(s)) + Newlines(|s| - |Join(Split(s))|)
  {
    var kept := Split(s);
    var n := |Segments(s)| - |kept|;
    DropTrailingEmptyPads(Segments(s));
    JoinSegments(s);
    JoinTrailingEmpty(kept, n);
  }

  /** Every line that `Split` produces is free of newlines and the last one is not empty. */
  lemma SplitLines(s: string)
    ensures forall k :: 0 <= k < |Split(s)| ==> NoNewline(Split(s)[k])
    ensures |Split(s)| > 0 ==> Split(s)[|Split(s)| - 1] != []
  {
    SegmentsHaveNoNewline(s);
  }
}
