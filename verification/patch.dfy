/**
  `applyDiff` of backend/utils.js: a unified-diff-like patch applied to a list of lines.

  The code walks the diff once, keeping a cursor into the lines being edited:
  a hunk header `@@ -s,… +…,… @@` puts the cursor at `s - 1`, a `+` line inserts
  its text at the cursor and moves past it, a `-` line deletes the line at the cursor,
  and a line starting with a space moves the cursor on.  Insertions and deletions go
  through JavaScript's `Array.prototype.splice`, whose start index is clamped into the
  array (a negative start counts from the end).  Nothing checks that context or deleted
  lines match the file.

  `Merge` is an independent, front-to-back reading of one hunk; the cursor walk is
  proved to agree with it.  The header's start is taken in the original numbering even
  after earlier hunks have changed the line count; `Adjusted` is the corrected reading,
  proved to apply every hunk where it belongs.
 */
module Patch {
  import opened Optional
  import opened Text

  // ---------------------------------------------------------------------------
  // The hunk header, `line.match(/@@ -(\d+),?(\d*) \+(\d+),?(\d*) @@/)`
  // ---------------------------------------------------------------------------

  predicate IsDigit(c: char) {
    '0' <= c <= '9'
  }

  /** The length of the leading run of digits of `s`. */
  function DigitRun(s: string): (n: nat)
    ensures n <= |s|
    ensures forall i :: 0 <= i < n ==> IsDigit(s[i])
    ensures n < |s| ==> !IsDigit(s[n])
    decreases |s|
  {
    if |s| > 0 && IsDigit(s[0]) then 1 + DigitRun(s[1..]) else 0
  }

  /** `parseInt` of a string of decimal digits. */
  function DigitsValue(s: string): nat
    decreases |s|
  {
    if |s| == 0 then 0
    else
      var d := s[|s| - 1] as int - '0' as int;
      DigitsValue(s[..|s| - 1]) * 10 + (if 0 <= d then d else 0)
  }

  /**
    The length matched by `,?\d*` right after a maximal run of digits: a comma and
    the digits after it, or nothing.
   */
  function OptCount(s: string): (n: nat)
    ensures n <= |s|
  {
    if |s| > 0 && s[0] == ',' then 1 + DigitRun(s[1..]) else DigitRun(s)
  }

  /** `,?\d*` and then the literal `lit`. */
  predicate CountThen(s: string, lit: string) {
    StartsWith(s[OptCount(s)..], lit)
  }

  /** `\d+,?\d* @@`: the second range and the closing `@@`. */
  predicate SecondRange(c: string) {
    var d3 := DigitRun(c);
    d3 > 0 && CountThen(c[d3..], " @@")
  }

  /** `,?\d* \+` and the second range, right after the first `\d+`. */
  predicate AfterFirst(b: string) {
    var b2 := b[OptCount(b)..];
    StartsWith(b2, " +") && SecondRange(b2[2..])
  }

  /**
    The first group, if the pattern after `@@ -` matches at the start of `a`.  Each `\d+`
    is followed by something that is not a digit, so backtracking into it never helps:
    the greedy reading below is the only way the pattern can match from this position.
   */
  function MatchFrom(a: string): Option<nat> {
    var d1 := DigitRun(a);
    if d1 > 0 && AfterFirst(a[d1..]) then Some(DigitsValue(a[..d1])) else None
  }

  /** The first group, if the regex matches at the start of `s`. */
  function MatchAt(s: string): Option<nat> {
    if StartsWith(s, "@@ -") then MatchFrom(s[4..]) else None
  }

  /** The regex is not anchored: the leftmost position where it matches, from `p` on. */
  function FirstMatch(s: string, p: nat): Option<nat>
    requires p <= |s|
    decreases |s| - p
  {
    if MatchAt(s[p..]).Some? then MatchAt(s[p..])
    else if p == |s| then None
    else FirstMatch(s, p + 1)
  }

  /** `parseInt(match[1])` when the line matches the header pattern. */
  function HunkStart(line: string): Option<nat> {
    FirstMatch(line, 0)
  }

  /**
    The start a line sets the cursor from, if the loop takes it as a hunk header:
    it must start with `@@` and match the pattern.
   */
  function HeaderStart(line: string): Option<nat> {
    if StartsWith(line, "@@") then HunkStart(line) else None
  }

  predicate AllDigits(d: string) {
    forall i :: 0 <= i < |d| ==> IsDigit(d[i])
  }

  /** A run of digits followed by a non-digit: the run is exactly the digits. */
  lemma {:induction false} DigitRunPrefix(d: string, t: string)
    requires AllDigits(d) && (|t| == 0 || !IsDigit(t[0]))
    ensures DigitRun(d + t) == |d|
    decreases |d|
  {
    if |d| == 0 {
      assert d + t == t;
    } else {
      assert (d + t)[1..] == d[1..] + t;
      DigitRunPrefix(d[1..], t);
    }
  }

  /** The `,c` count of a range; a diff generator leaves it out when it is empty. */
  function CountText(c: string): string {
    if c == "" then "" else "," + c
  }

  /** A range `s,c` of a hunk header, or just `s` when there is no count. */
  function RangeText(s: string, c: string): string {
    s + CountText(c)
  }

  /** A header line `@@ -d1,c1 +d3,c3 @@`, each `,c` left out when `c` is empty. */
  function HunkHeader(d1: string, c1: string, d3: string, c3: string): string {
    "@@ -" + (RangeText(d1, c1) + (" +" + (RangeText(d3, c3) + " @@")))
  }

  /** `,?\d*` reads the count, if any, and stops at the space that follows. */
  lemma CountSkip(c: string, t: string)
    requires AllDigits(c) && |t| > 0 && t[0] == ' '
    ensures var b := CountText(c) + t;
            b[OptCount(b)..] == t
  {
    var b := CountText(c) + t;
    if c == "" {
      assert b == t;
    } else {
      assert b[1..] == c + t;
      DigitRunPrefix(c, t);
    }
  }

  /** `\d+` reads the start of a range and stops at the count or the space after it. */
  lemma RangeSkip(d: string, c: string, t: string)
    requires AllDigits(d) && |d| > 0 && |t| > 0 && t[0] == ' '
    ensures var a := RangeText(d, c) + t;
            DigitRun(a) == |d| && a[..|d|] == d && a[|d|..] == CountText(c) + t
  {
    var a := RangeText(d, c) + t;
    assert a == d + (CountText(c) + t);
    DigitRunPrefix(d, CountText(c) + t);
  }

  lemma SecondRangeOf(d3: string, c3: string)
    requires AllDigits(d3) && AllDigits(c3) && |d3| > 0
    ensures SecondRange(RangeText(d3, c3) + " @@")
  {
    RangeSkip(d3, c3, " @@");
    CountSkip(c3, " @@");
  }

  lemma AfterFirstOf(c1: string, c: string)
    requires AllDigits(c1) && SecondRange(c)
    ensures AfterFirst(CountText(c1) + (" +" + c))
  {
    CountSkip(c1, " +" + c);
    assert (" +" + c)[..2] == " +" && (" +" + c)[2..] == c;
  }

  lemma MatchAtHeader(d1: string, c1: string, d3: string, c3: string)
    requires AllDigits(d1) && AllDigits(c1) && AllDigits(d3) && AllDigits(c3) && |d1| > 0 && |d3| > 0
    ensures MatchAt(HunkHeader(d1, c1, d3, c3)) == Some(DigitsValue(d1))
  {
    var c := RangeText(d3, c3) + " @@";
    var rest := " +" + c;
    var a := RangeText(d1, c1) + rest;
    var s := "@@ -" + a;
    assert s[..4] == "@@ -" && s[4..] == a;
    RangeSkip(d1, c1, rest);
    SecondRangeOf(d3, c3);
    AfterFirstOf(c1, c);
  }

  /**
    A header written by a diff generator is recognised, with or without the counts
    that `,?` makes optional, and gives its first number.
   */
  lemma HeaderStartOf(d1: string, c1: string, d3: string, c3: string)
    requires AllDigits(d1) && AllDigits(c1) && AllDigits(d3) && AllDigits(c3) && |d1| > 0 && |d3| > 0
    ensures HeaderStart(HunkHeader(d1, c1, d3, c3)) == Some(DigitsValue(d1))
  {
    var s := HunkHeader(d1, c1, d3, c3);
    assert s[..2] == "@@";
    MatchAtHeader(d1, c1, d3, c3);
    assert s[0..] == s;
  }

  // ---------------------------------------------------------------------------
  // The cursor walk
  // ---------------------------------------------------------------------------

  /** `Array.prototype.splice`'s start: negative counts from the end, and both ends clamp. */
  function ClampStart(len: nat, start: int): (r: nat)
    ensures r <= len
  {
    if start < 0 then (if len + start < 0 then 0 else len + start)
    else if start > len then len
    else start
  }

  /** `xs.splice(start, del, ...items)`, returning the edited array. */
  function Splice(xs: seq<string>, start: int, del: nat, items: seq<string>): seq<string> {
    var s := ClampStart(|xs|, start);
    var d := if del <= |xs| - s then del else |xs| - s;
    xs[..s] + items + xs[s + d..]
  }

  /** The lines being edited (`result`) and the cursor (`currentLine`). */
  datatype Cursor = Cursor(lines: seq<string>, at: int)

  /**
    Where a header puts the cursor.  `AsWritten` is the code: `s - 1`.  `Adjusted` adds
    the net number of lines earlier hunks inserted, so that `s` keeps its meaning as a
    line number of the original file.
   */
  datatype Offset = AsWritten | Adjusted(originalLength: nat)

  function HeaderCursor(mode: Offset, st: Cursor, s: nat): int {
    match mode
    case AsWritten => s - 1
    case Adjusted(n) => s - 1 + (|st.lines| - n)
  }

  /**
    One iteration of the loop over the diff lines.  `hdr` recognises hunk headers; the
    code's recogniser is `HeaderStart`, and keeping it a parameter keeps the pattern
    matcher out of the proofs that do not need it.
   */
  function Step(mode: Offset, hdr: string -> Option<nat>, st: Cursor, line: string): Cursor {
    match hdr(line)
    case Some(s) => Cursor(st.lines, HeaderCursor(mode, st, s))
    case None =>
      if StartsWith(line, "+") then Cursor(Splice(st.lines, st.at, 0, [line[1..]]), st.at + 1)
      else if StartsWith(line, "-") then Cursor(Splice(st.lines, st.at, 1, []), st.at)
      else if StartsWith(line, " ") then Cursor(st.lines, st.at + 1)
      else st
  }

  /** The loop over the given diff lines. */
  function Run(mode: Offset, hdr: string -> Option<nat>, st: Cursor, diff: seq<string>): Cursor
    decreases |diff|
  {
    if |diff| == 0 then st
    else Step(mode, hdr, Run(mode, hdr, st, diff[..|diff| - 1]), diff[|diff| - 1])
  }

  /** `applyDiff` on lines: the cursor starts at 0 on a copy of the original lines. */
  function ApplyLines(original: seq<string>, diff: seq<string>): seq<string> {
    Run(AsWritten, HeaderStart, Cursor(original, 0), diff).lines
  }

  /** `applyDiff(originalContent, diffContent)`. */
  function ApplyDiff(originalContent: string, diffContent: string): string {
    Join(ApplyLines(Lines(originalContent), Lines(diffContent)))
  }

  /** `applyDiff` with each header's start shifted by the lines earlier hunks added. */
  function ApplyLinesFixed(original: seq<string>, diff: seq<string>): seq<string> {
    Run(Adjusted(|original|), HeaderStart, Cursor(original, 0), diff).lines
  }

  function ApplyDiffFixed(originalContent: string, diffContent: string): string {
    Join(ApplyLinesFixed(Lines(originalContent), Lines(diffContent)))
  }

  // ---------------------------------------------------------------------------
  // One line at a time
  // ---------------------------------------------------------------------------

  /** `line.startsWith(c)` for a one-character prefix. */
  lemma StartsWithChar(line: string, c: char)
    ensures StartsWith(line, [c]) <==> |line| > 0 && line[0] == c
  {
    if |line| > 0 && line[0] == c {
      assert line[..1] == [c];
    }
    if StartsWith(line, [c]) {
      assert line[..1][0] == line[0];
    }
  }

  /** A line whose first character is not `@` is never a header. */
  lemma NotHeader(line: string)
    requires |line| > 0 && line[0] != '@'
    ensures HeaderStart(line).None?
  {
    NotAtAt(line);
  }

  lemma NotAtAt(line: string)
    requires |line| > 0 && line[0] != '@'
    ensures !StartsWith(line, "@@")
  {
    if |line| >= 2 {
      assert line[..2][0] == line[0];
    }
  }

  /** What kind of line the loop sees: the first character decides, once headers are set aside. */
  lemma LineKind(line: string)
    ensures StartsWith(line, "+") <==> |line| > 0 && line[0] == '+'
    ensures StartsWith(line, "-") <==> |line| > 0 && line[0] == '-'
    ensures StartsWith(line, " ") <==> |line| > 0 && line[0] == ' '
  {
    StartsWithChar(line, '+');
    StartsWithChar(line, '-');
    StartsWithChar(line, ' ');
  }

  /**
    A header puts the cursor at `s - 1` whatever came before: the start is read in the
    numbering of the original file, not adjusted for lines earlier hunks added or removed.
   */
  lemma HeaderSetsCursor(st: Cursor, line: string)
    requires HeaderStart(line).Some?
    ensures Step(AsWritten, HeaderStart, st, line) == Cursor(st.lines, HeaderStart(line).value - 1)
  {
  }

  /** A `+` line inserts its text, without the `+`, at the (clamped) cursor and moves past it. */
  lemma StepPlus(mode: Offset, hdr: string -> Option<nat>, st: Cursor, line: string)
    requires hdr(line).None? && StartsWith(line, "+")
    ensures var k := ClampStart(|st.lines|, st.at);
            && Step(mode, hdr, st, line).lines == st.lines[..k] + [line[1..]] + st.lines[k..]
            && Step(mode, hdr, st, line).at == st.at + 1
  {
  }

  /** A `-` line deletes the line at the (clamped) cursor, if there is one, and leaves the cursor. */
  lemma StepMinus(mode: Offset, hdr: string -> Option<nat>, st: Cursor, line: string)
    requires hdr(line).None? && StartsWith(line, "-")
    ensures var k := ClampStart(|st.lines|, st.at);
            && Step(mode, hdr, st, line).lines == (if k < |st.lines| then st.lines[..k] + st.lines[k + 1..] else st.lines)
            && Step(mode, hdr, st, line).at == st.at
  {
    LineKind(line);
  }

  /** A context line only moves the cursor on. */
  lemma StepContext(mode: Offset, hdr: string -> Option<nat>, st: Cursor, line: string)
    requires hdr(line).None? && StartsWith(line, " ")
    ensures Step(mode, hdr, st, line) == Cursor(st.lines, st.at + 1)
  {
    LineKind(line);
  }

  /** Any other line, including an empty one or an `@@` line the pattern rejects, is skipped. */
  lemma StepOther(mode: Offset, hdr: string -> Option<nat>, st: Cursor, line: string)
    requires hdr(line).None?
    requires |line| == 0 || (line[0] != '+' && line[0] != '-' && line[0] != ' ')
    ensures Step(mode, hdr, st, line) == st
  {
    LineKind(line);
  }

  // ---------------------------------------------------------------------------
  // Line counts
  // ---------------------------------------------------------------------------

  /** The number of lines of `diff` that start with `c`. */
  function CountKind(diff: seq<string>, c: char): nat
    decreases |diff|
  {
    if |diff| == 0 then 0
    else
      var l := diff[|diff| - 1];
      CountKind(diff[..|diff| - 1], c) + (if |l| > 0 && l[0] == c then 1 else 0)
  }

  /** One line changes the length by what its kind allows: +1 for `+`, 0 or -1 for `-`, 0 otherwise. */
  lemma StepLength(mode: Offset, st: Cursor, line: string)
    ensures var n := |Step(mode, HeaderStart, st, line).lines|;
            && (|line| > 0 && line[0] == '+' ==> n == |st.lines| + 1)
            && (|line| > 0 && line[0] == '-' ==> |st.lines| - 1 <= n <= |st.lines|)
            && (!(|line| > 0 && (line[0] == '+' || line[0] == '-')) ==> n == |st.lines|)
  {
    LineKind(line);
    if |line| > 0 && line[0] != '@' {
      NotHeader(line);
    }
  }

  /**
    Each `+` line inserts exactly one line and each `-` line removes at most one, so the
    result has between `|lines| + #plus - #minus` and `|lines| + #plus` lines.
   */
  lemma {:induction false} RunLength(mode: Offset, st: Cursor, diff: seq<string>)
    ensures |st.lines| + CountKind(diff, '+') - CountKind(diff, '-') <= |Run(mode, HeaderStart, st, diff).lines|
    ensures |Run(mode, HeaderStart, st, diff).lines| <= |st.lines| + CountKind(diff, '+')
    decreases |diff|
  {
    if |diff| > 0 {
      var n := |diff| - 1;
      RunLength(mode, st, diff[..n]);
      StepLength(mode, Run(mode, HeaderStart, st, diff[..n]), diff[n]);
    }
  }

  /** `applyDiff`'s line count, from the counts of `+` and `-` lines in the diff. */
  lemma ApplyLinesLength(original: seq<string>, diff: seq<string>)
    ensures |original| + CountKind(diff, '+') - CountKind(diff, '-') <= |ApplyLines(original, diff)|
    ensures |ApplyLines(original, diff)| <= |original| + CountKind(diff, '+')
  {
    RunLength(AsWritten, Cursor(original, 0), diff);
  }

  /** No line starts with `+` or `-`. */
  predicate NoEdits(diff: seq<string>) {
    forall i :: 0 <= i < |diff| ==> !StartsWith(diff[i], "+") && !StartsWith(diff[i], "-")
  }

  /** Without `+` and `-` lines, only the cursor moves. */
  lemma {:induction false} RunNoEdits(mode: Offset, hdr: string -> Option<nat>, st: Cursor, diff: seq<string>)
    requires NoEdits(diff)
    ensures Run(mode, hdr, st, diff).lines == st.lines
    decreases |diff|
  {
    if |diff| > 0 {
      var n := |diff| - 1;
      assert NoEdits(diff[..n]);
      RunNoEdits(mode, hdr, st, diff[..n]);
    }
  }

  /** A diff with no `+` or `-` line gives back the original text exactly. */
  lemma ApplyDiffUnchanged(originalContent: string, diffContent: string)
    requires NoEdits(Lines(diffContent))
    ensures ApplyDiff(originalContent, diffContent) == originalContent
  {
    RunNoEdits(AsWritten, HeaderStart, Cursor(Lines(originalContent), 0), Lines(diffContent));
    JoinLines(originalContent);
  }

  // ---------------------------------------------------------------------------
  // One hunk, read front to back
  // ---------------------------------------------------------------------------

  function Take1(xs: seq<string>): seq<string> {
    if |xs| == 0 then [] else [xs[0]]
  }

  function Drop1(xs: seq<string>): seq<string> {
    if |xs| == 0 then [] else xs[1..]
  }

  /**
    A hunk body applied to the lines from the cursor on, read from the front: a `+` line
    contributes its text, a `-` line drops the next line, a context line keeps the next
    line (whatever the context says), and any other line does nothing.
   */
  function Merge(xs: seq<string>, body: seq<string>): seq<string>
    decreases |body|
  {
    if |body| == 0 then xs
    else
      var l := body[0];
      if StartsWith(l, "+") then [l[1..]] + Merge(xs, body[1..])
      else if StartsWith(l, "-") then Merge(Drop1(xs), body[1..])
      else if StartsWith(l, " ") then Take1(xs) + Merge(Drop1(xs), body[1..])
      else Merge(xs, body[1..])
  }

  /** No line of the body is taken for a header. */
  predicate NoHeaders(hdr: string -> Option<nat>, body: seq<string>) {
    forall i :: 0 <= i < |body| ==> hdr(body[i]).None?
  }

  /** The walk, peeled from the front. */
  lemma {:induction false} RunCons(mode: Offset, hdr: string -> Option<nat>, st: Cursor, l: string, b: seq<string>)
    ensures Run(mode, hdr, st, [l] + b) == Run(mode, hdr, Step(mode, hdr, st, l), b)
    decreases |b|
  {
    if |b| == 0 {
      assert ([l] + b)[..0] == [];
    } else {
      var n := |b| - 1;
      assert ([l] + b)[..|b|] == [l] + b[..n];
      RunCons(mode, hdr, st, l, b[..n]);
    }
  }

  /** The cursor clamped into the lines, for a cursor that is not negative. */
  function Pos(st: Cursor): nat
    requires st.at >= 0
  {
    ClampStart(|st.lines|, st.at)
  }

  function Before(st: Cursor): seq<string>
    requires st.at >= 0
  {
    st.lines[..Pos(st)]
  }

  function After(st: Cursor): seq<string>
    requires st.at >= 0
  {
    st.lines[Pos(st)..]
  }

  lemma ViewPlus(mode: Offset, hdr: string -> Option<nat>, st: Cursor, l: string)
    requires st.at >= 0 && hdr(l).None? && StartsWith(l, "+")
    ensures Step(mode, hdr, st, l).at >= 0
    ensures Before(Step(mode, hdr, st, l)) == Before(st) + [l[1..]]
    ensures After(Step(mode, hdr, st, l)) == After(st)
  {
    StepPlus(mode, hdr, st, l);
  }

  lemma ViewMinus(mode: Offset, hdr: string -> Option<nat>, st: Cursor, l: string)
    requires st.at >= 0 && hdr(l).None? && StartsWith(l, "-")
    ensures Step(mode, hdr, st, l).at >= 0
    ensures Before(Step(mode, hdr, st, l)) == Before(st)
    ensures After(Step(mode, hdr, st, l)) == Drop1(After(st))
  {
    StepMinus(mode, hdr, st, l);
  }

  lemma ViewContext(mode: Offset, hdr: string -> Option<nat>, st: Cursor, l: string)
    requires st.at >= 0 && hdr(l).None? && StartsWith(l, " ")
    ensures Step(mode, hdr, st, l).at >= 0
    ensures Before(Step(mode, hdr, st, l)) == Before(st) + Take1(After(st))
    ensures After(Step(mode, hdr, st, l)) == Drop1(After(st))
  {
    StepContext(mode, hdr, st, l);
    var k := Pos(st);
    if k < |st.lines| {
      assert st.lines[..k + 1] == st.lines[..k] + [st.lines[k]];
    }
  }

  lemma Assoc(a: seq<string>, b: seq<string>, c: seq<string>)
    ensures (a + b) + c == a + (b + c)
  {
  }

  /** One body line, in terms of the front-to-back reading. */
  lemma BodyStep(mode: Offset, hdr: string -> Option<nat>, st: Cursor, l: string, rest: seq<string>)
    requires st.at >= 0 && hdr(l).None?
    ensures Step(mode, hdr, st, l).at >= 0
    ensures Before(Step(mode, hdr, st, l)) + Merge(After(Step(mode, hdr, st, l)), rest)
            == Before(st) + Merge(After(st), [l] + rest)
  {
    var body := [l] + rest;
    assert body[0] == l && body[1..] == rest;
    if StartsWith(l, "+") {
      ViewPlus(mode, hdr, st, l);
      Assoc(Before(st), [l[1..]], Merge(After(st), rest));
    } else if StartsWith(l, "-") {
      ViewMinus(mode, hdr, st, l);
    } else if StartsWith(l, " ") {
      ViewContext(mode, hdr, st, l);
      Assoc(Before(st), Take1(After(st)), Merge(Drop1(After(st)), rest));
    }
  }

  /**
    A hunk body with no header in it does what `Merge` says to the lines from the
    cursor on, and leaves the lines before the cursor alone.
   */
  lemma {:induction false} RunBody(mode: Offset, hdr: string -> Option<nat>, st: Cursor, body: seq<string>)
    requires st.at >= 0 && NoHeaders(hdr, body)
    ensures Run(mode, hdr, st, body).lines == Before(st) + Merge(After(st), body)
    decreases |body|
  {
    if |body| == 0 {
      assert Before(st) + After(st) == st.lines;
    } else {
      var l := body[0];
      var rest := body[1..];
      assert body == [l] + rest;
      RunCons(mode, hdr, st, l, rest);
      BodyStep(mode, hdr, st, l, rest);
      assert NoHeaders(hdr, rest) by {
        assert forall i :: 0 <= i < |rest| ==> rest[i] == body[i + 1];
      }
      RunBody(mode, hdr, Step(mode, hdr, st, l), rest);
    }
  }

  /**
    A diff of one hunk starting at line `s >= 1` of the original: the lines before line
    `s` stay (all of them, if `s` is past the end), and the body is merged into the rest.
   */
  lemma ApplyOneHunk(original: seq<string>, header: string, body: seq<string>)
    requires HeaderStart(header).Some? && HeaderStart(header).value >= 1
    requires NoHeaders(HeaderStart, body)
    ensures var m := if HeaderStart(header).value - 1 <= |original| then HeaderStart(header).value - 1 else |original|;
            ApplyLines(original, [header] + body) == original[..m] + Merge(original[m..], body)
  {
    var st := Cursor(original, 0);
    RunCons(AsWritten, HeaderStart, st, header, body);
    HeaderSetsCursor(st, header);
    RunBody(AsWritten, HeaderStart, Step(AsWritten, HeaderStart, st, header), body);
  }

  // ---------------------------------------------------------------------------
  // Several hunks
  // ---------------------------------------------------------------------------

  /** How many lines of the original a hunk body consumes: its `-` and context lines. */
  function OldLen(body: seq<string>): nat
    decreases |body|
  {
    if |body| == 0 then 0
    else
      var l := body[0];
      (if StartsWith(l, "-") || (!StartsWith(l, "+") && StartsWith(l, " ")) then 1 else 0) + OldLen(body[1..])
  }

  /** A body that consumes at most `k` lines only looks at the first `k` lines it is merged into. */
  lemma {:induction false} MergeSplit(xs: seq<string>, body: seq<string>, k: nat)
    requires OldLen(body) <= k <= |xs|
    ensures Merge(xs, body) == Merge(xs[..k], body) + xs[k..]
    decreases |body|
  {
    if |body| > 0 {
      var l := body[0];
      var b := body[1..];
      if StartsWith(l, "+") {
        MergeSplit(xs, b, k);
      } else if StartsWith(l, "-") || StartsWith(l, " ") {
        assert xs[..k][1..] == xs[1..][..k - 1];
        assert xs[1..][k - 1..] == xs[k..];
        MergeSplit(xs[1..], b, k - 1);
      } else {
        MergeSplit(xs, b, k);
      }
    }
  }

  /** A hunk: a header line whose pattern gives `start`, and a body with no header in it. */
  datatype Hunk = Hunk(start: nat, header: string, body: seq<string>)

  predicate ValidHunk(hdr: string -> Option<nat>, h: Hunk) {
    hdr(h.header) == Some(h.start) && h.start >= 1 && NoHeaders(hdr, h.body)
  }

  /** The line of the original just past the lines the hunk consumes. */
  function HunkEnd(h: Hunk): int {
    h.start - 1 + OldLen(h.body)
  }

  /**
    Valid hunks, in order, each starting at or after the end of the previous one
    (from line `from` on) and ending inside the original of `n` lines.
   */
  predicate Ordered(hdr: string -> Option<nat>, hunks: seq<Hunk>, from: nat, n: nat)
    decreases |hunks|
  {
    |hunks| == 0 ||
    (ValidHunk(hdr, hunks[0]) && from <= hunks[0].start - 1 && HunkEnd(hunks[0]) <= n
     && Ordered(hdr, hunks[1..], HunkEnd(hunks[0]), n))
  }

  /** The diff text of the hunks: each header followed by its body. */
  function Render(hunks: seq<Hunk>): seq<string>
    decreases |hunks|
  {
    if |hunks| == 0 then [] else [hunks[0].header] + hunks[0].body + Render(hunks[1..])
  }

  /**
    What the hunks mean, read against the original: the lines between hunks are kept,
    and each hunk replaces the lines it consumes with its merge.
   */
  function Reference(hdr: string -> Option<nat>, original: seq<string>, hunks: seq<Hunk>, from: nat): seq<string>
    requires from <= |original| && Ordered(hdr, hunks, from, |original|)
    decreases |hunks|
  {
    if |hunks| == 0 then original[from..]
    else
      var h := hunks[0];
      var e := HunkEnd(h);
      original[from..h.start - 1] + Merge(original[h.start - 1..e], h.body) + Reference(hdr, original, hunks[1..], e)
  }

  /** The walk over two diffs in a row. */
  lemma {:induction false} RunConcat(mode: Offset, hdr: string -> Option<nat>, st: Cursor, a: seq<string>, b: seq<string>)
    ensures Run(mode, hdr, st, a + b) == Run(mode, hdr, Run(mode, hdr, st, a), b)
    decreases |b|
  {
    if |b| > 0 {
      var n := |b| - 1;
      assert (a + b)[..|a + b| - 1] == a + b[..n];
      assert (a + b)[|a + b| - 1] == b[n];
      RunConcat(mode, hdr, st, a, b[..n]);
    } else {
      assert a + b == a;
    }
  }

  /** A header line sets the cursor and nothing else. */
  lemma HeaderStep(mode: Offset, hdr: string -> Option<nat>, st: Cursor, line: string, s: nat)
    requires hdr(line) == Some(s)
    ensures Step(mode, hdr, st, line) == Cursor(st.lines, HeaderCursor(mode, st, s))
  {
  }

  /**
    In the corrected reading, a header over lines `done + original[e..]` (where `done`
    stands for the first `e` lines of the original) finds line `start` of the original.
   */
  lemma FixedHeader(hdr: string -> Option<nat>, original: seq<string>, done: seq<string>, e: nat, at: int, h: Hunk)
    requires e <= h.start - 1 <= |original| && ValidHunk(hdr, h)
    ensures var st := Step(Adjusted(|original|), hdr, Cursor(done + original[e..], at), h.header);
            && st.at >= 0
            && Before(st) == done + original[e..h.start - 1]
            && After(st) == original[h.start - 1..]
  {
    var lines := done + original[e..];
    var k := |done| + (h.start - 1 - e);
    HeaderStep(Adjusted(|original|), hdr, Cursor(lines, at), h.header, h.start);
    assert lines[..k] == done + original[e..h.start - 1];
    assert lines[k..] == original[h.start - 1..];
  }

  /** One hunk of the corrected walk, over the lines `done + original[e..]`. */
  lemma FixedHunk(hdr: string -> Option<nat>, original: seq<string>, done: seq<string>, e: nat, at: int, h: Hunk)
    requires e <= h.start - 1 && HunkEnd(h) <= |original| && ValidHunk(hdr, h)
    ensures Run(Adjusted(|original|), hdr, Cursor(done + original[e..], at), [h.header] + h.body).lines
            == (done + original[e..h.start - 1] + Merge(original[h.start - 1..HunkEnd(h)], h.body))
               + original[HunkEnd(h)..]
  {
    var mode := Adjusted(|original|);
    var st := Cursor(done + original[e..], at);
    var st1 := Step(mode, hdr, st, h.header);
    RunCons(mode, hdr, st, h.header, h.body);
    FixedHeader(hdr, original, done, e, at, h);
    RunBody(mode, hdr, st1, h.body);
    var xs := original[h.start - 1..];
    MergeSplit(xs, h.body, OldLen(h.body));
    assert xs[..OldLen(h.body)] == original[h.start - 1..HunkEnd(h)];
    assert xs[OldLen(h.body)..] == original[HunkEnd(h)..];
  }

  /** The first hunk of an ordered list, peeled off. */
  lemma ReferenceCons(hdr: string -> Option<nat>, original: seq<string>, hunks: seq<Hunk>, e: nat)
    requires e <= |original| && Ordered(hdr, hunks, e, |original|) && |hunks| > 0
    ensures var h := hunks[0];
            && e <= h.start - 1 && HunkEnd(h) <= |original| && ValidHunk(hdr, h)
            && Ordered(hdr, hunks[1..], HunkEnd(h), |original|)
            && Reference(hdr, original, hunks, e)
               == original[e..h.start - 1] + Merge(original[h.start - 1..HunkEnd(h)], h.body)
                  + Reference(hdr, original, hunks[1..], HunkEnd(h))
            && Render(hunks) == ([h.header] + h.body) + Render(hunks[1..])
  {
  }

  lemma Assoc3(d: seq<string>, a: seq<string>, m: seq<string>, r: seq<string>)
    ensures (d + a + m) + r == d + (a + m + r)
  {
  }

  /** The corrected walk over rendered hunks, from any point between hunks. */
  lemma {:induction false} FixedRun(hdr: string -> Option<nat>, original: seq<string>, hunks: seq<Hunk>, done: seq<string>, e: nat, at: int)
    requires e <= |original| && Ordered(hdr, hunks, e, |original|)
    ensures Run(Adjusted(|original|), hdr, Cursor(done + original[e..], at), Render(hunks)).lines
            == done + Reference(hdr, original, hunks, e)
    decreases |hunks|
  {
    var mode := Adjusted(|original|);
    var st := Cursor(done + original[e..], at);
    if |hunks| == 0 {
      assert Render(hunks) == [];
    } else {
      ReferenceCons(hdr, original, hunks, e);
      var h := hunks[0];
      var rest := hunks[1..];
      var e2 := HunkEnd(h);
      var pre := original[e..h.start - 1];
      var m := Merge(original[h.start - 1..e2], h.body);
      RunConcat(mode, hdr, st, [h.header] + h.body, Render(rest));
      FixedHunk(hdr, original, done, e, at, h);
      var st2 := Run(mode, hdr, st, [h.header] + h.body);
      assert st2 == Cursor((done + pre + m) + original[e2..], st2.at);
      FixedRun(hdr, original, rest, done + pre + m, e2, st2.at);
      Assoc3(done, pre, m, Reference(hdr, original, rest, e2));
    }
  }

  /**
    The corrected `applyDiff` applies every hunk of an ordered diff where its header
    says, in the original file's numbering.
   */
  lemma ApplyLinesFixedHunks(original: seq<string>, hunks: seq<Hunk>)
    requires Ordered(HeaderStart, hunks, 0, |original|)
    ensures ApplyLinesFixed(original, Render(hunks)) == Reference(HeaderStart, original, hunks, 0)
  {
    FixedRun(HeaderStart, original, hunks, [], 0, 0);
    assert [] + original[0..] == original;
  }

  // ---------------------------------------------------------------------------
  // A diff whose second hunk lands on the wrong line
  // ---------------------------------------------------------------------------

  /** `@@ -2 +2 @@`, the header of a one-line hunk, sets the start to 2. */
  lemma HeaderWithoutCounts()
    ensures HeaderStart(HunkHeader("2", "", "2", "")) == Some(2)
  {
    assert AllDigits("") && AllDigits("2") && DigitsValue("2") == 2;
    HeaderStartOf("2", "", "2", "");
  }

  lemma HeaderOne()
    ensures HeaderStart(HunkHeader("1", "1", "1", "2")) == Some(1)
  {
    HeaderStartOf("1", "1", "1", "2");
    assert DigitsValue("1") == 1;
  }

  lemma HeaderThree()
    ensures HeaderStart(HunkHeader("3", "1", "4", "1")) == Some(3)
  {
    HeaderStartOf("3", "1", "4", "1");
    assert DigitsValue("3") == 3;
  }

  /** Two hunks under headers `h1` and `h2`: insert `x` after line 1, then replace line 3 `c` by `C`. */
  function TwoHunks(h1: string, h2: string): seq<Hunk> {
    [Hunk(1, h1, [" a", "+x"]), Hunk(3, h2, ["-c", "+C"])]
  }

  /** A recogniser that reads `h1` and `h2` as headers for lines 1 and 3, and the body lines as none. */
  predicate ReadsTwoHunks(hdr: string -> Option<nat>, h1: string, h2: string) {
    hdr(h1) == Some(1) && hdr(h2) == Some(3)
    && hdr(" a").None? && hdr("+x").None? && hdr("-c").None? && hdr("+C").None?
  }

  lemma ReadsTwoHunksHere(h1: string, h2: string)
    requires h1 == HunkHeader("1", "1", "1", "2") && h2 == HunkHeader("3", "1", "4", "1")
    ensures ReadsTwoHunks(HeaderStart, h1, h2)
  {
    HeaderOne();
    HeaderThree();
    NotHeader(" a");
    NotHeader("+x");
    NotHeader("-c");
    NotHeader("+C");
  }

  lemma TwoHunksOrdered(hdr: string -> Option<nat>, h1: string, h2: string)
    requires ReadsTwoHunks(hdr, h1, h2)
    ensures Ordered(hdr, TwoHunks(h1, h2), 0, 3)
    ensures Ordered(hdr, TwoHunks(h1, h2)[1..], 1, 3)
    ensures HunkEnd(TwoHunks(h1, h2)[0]) == 1 && HunkEnd(TwoHunks(h1, h2)[1]) == 3
    ensures Render(TwoHunks(h1, h2)) == [h1, " a", "+x", h2, "-c", "+C"]
  {
    var hs := TwoHunks(h1, h2);
    assert NoHeaders(hdr, hs[0].body);
    assert NoHeaders(hdr, hs[1].body);
    assert hs[1..][1..] == [];
    assert OldLen(hs[0].body) == 1 by {
      LineKind(" a");
      LineKind("+x");
      assert hs[0].body[1..][1..] == [];
    }
    assert OldLen(hs[1].body) == 1 by {
      LineKind("-c");
      LineKind("+C");
      assert hs[1].body[1..][1..] == [];
    }
    assert Ordered(hdr, hs[1..], 1, 3);
    assert Render(hs[1..]) == [h2] + ["-c", "+C"] + Render([]);
  }

  /** Three lines of diff, one step at a time. */
  lemma RunThree(mode: Offset, hdr: string -> Option<nat>, st: Cursor, x: string, y: string, z: string)
    ensures Run(mode, hdr, st, [x, y, z]) == Step(mode, hdr, Step(mode, hdr, Step(mode, hdr, st, x), y), z)
  {
    var d := [x, y, z];
    assert Run(mode, hdr, st, d[..1]) == Step(mode, hdr, st, x) by {
      assert d[..1][..0] == [];
    }
    assert Run(mode, hdr, st, d[..2]) == Step(mode, hdr, Step(mode, hdr, st, x), y) by {
      assert d[..2][..1] == d[..1];
    }
  }

  /** The first hunk, under either reading. */
  lemma FirstHunkWalk(mode: Offset, hdr: string -> Option<nat>, h1: string, h2: string)
    requires ReadsTwoHunks(hdr, h1, h2)
    requires mode == AsWritten || mode == Adjusted(3)
    ensures Run(mode, hdr, Cursor(["a", "b", "c"], 0), [h1, " a", "+x"]) == Cursor(["a", "x", "b", "c"], 2)
  {
    var st0 := Cursor(["a", "b", "c"], 0);
    var st1 := Step(mode, hdr, st0, h1);
    HeaderStep(mode, hdr, st0, h1, 1);
    var st2 := Step(mode, hdr, st1, " a");
    StepContext(mode, hdr, st1, " a");
    StepPlus(mode, hdr, st2, "+x");
    RunThree(mode, hdr, st0, h1, " a", "+x");
  }

  /** The second hunk: as written it starts at index 2, which now holds `b`; corrected, at index 3. */
  lemma SecondHunkWalk(mode: Offset, hdr: string -> Option<nat>, h1: string, h2: string)
    requires ReadsTwoHunks(hdr, h1, h2)
    requires mode == AsWritten || mode == Adjusted(3)
    ensures var r := Run(mode, hdr, Cursor(["a", "x", "b", "c"], 2), [h2, "-c", "+C"]).lines;
            && (mode == AsWritten ==> r == ["a", "x", "C", "c"])
            && (mode == Adjusted(3) ==> r == ["a", "x", "b", "C"])
  {
    var st3 := Cursor(["a", "x", "b", "c"], 2);
    var st4 := Step(mode, hdr, st3, h2);
    HeaderStep(mode, hdr, st3, h2, 3);
    var st5 := Step(mode, hdr, st4, "-c");
    StepMinus(mode, hdr, st4, "-c");
    StepPlus(mode, hdr, st5, "+C");
    RunThree(mode, hdr, st3, h2, "-c", "+C");
  }

  /** The walk over the two hunks, as written and corrected. */
  lemma TwoHunksWalk(mode: Offset, hdr: string -> Option<nat>, h1: string, h2: string)
    requires ReadsTwoHunks(hdr, h1, h2)
    requires mode == AsWritten || mode == Adjusted(3)
    ensures var r := Run(mode, hdr, Cursor(["a", "b", "c"], 0), [h1, " a", "+x", h2, "-c", "+C"]).lines;
            && (mode == AsWritten ==> r == ["a", "x", "C", "c"])
            && (mode == Adjusted(3) ==> r == ["a", "x", "b", "C"])
  {
    var st0 := Cursor(["a", "b", "c"], 0);
    assert [h1, " a", "+x", h2, "-c", "+C"] == [h1, " a", "+x"] + [h2, "-c", "+C"];
    RunConcat(mode, hdr, st0, [h1, " a", "+x"], [h2, "-c", "+C"]);
    FirstHunkWalk(mode, hdr, h1, h2);
    SecondHunkWalk(mode, hdr, h1, h2);
  }

  /**
    As written, the second hunk's `-c` deletes `b`: its start, 3, is read as an index
    into lines that already hold the `x` the first hunk added, so `C` lands one line early
    and `c` survives.
   */
  lemma ApplyLinesMisplacesSecondHunk(h1: string, h2: string)
    requires h1 == HunkHeader("1", "1", "1", "2") && h2 == HunkHeader("3", "1", "4", "1")
    ensures ApplyLines(["a", "b", "c"], [h1, " a", "+x", h2, "-c", "+C"]) == ["a", "x", "C", "c"]
  {
    ReadsTwoHunksHere(h1, h2);
    TwoHunksWalk(AsWritten, HeaderStart, h1, h2);
  }

  /** What the two hunks mean, and the corrected walk producing it. */
  lemma ApplyLinesFixedTwoHunks(h1: string, h2: string)
    requires h1 == HunkHeader("1", "1", "1", "2") && h2 == HunkHeader("3", "1", "4", "1")
    ensures Ordered(HeaderStart, TwoHunks(h1, h2), 0, 3)
    ensures Reference(HeaderStart, ["a", "b", "c"], TwoHunks(h1, h2), 0) == ["a", "x", "b", "C"]
    ensures ApplyLinesFixed(["a", "b", "c"], [h1, " a", "+x", h2, "-c", "+C"]) == ["a", "x", "b", "C"]
  {
    ReadsTwoHunksHere(h1, h2);
    TwoHunksOrdered(HeaderStart, h1, h2);
    ApplyLinesFixedHunks(["a", "b", "c"], TwoHunks(h1, h2));
    TwoHunksWalk(Adjusted(3), HeaderStart, h1, h2);
  }
}
