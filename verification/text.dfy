/** An optional value: JavaScript's `null` / `undefined` next to a real value. */
module Optional {

  datatype Option<+T> = None | Some(value: T)
}

/**
  The string primitives the pipeline relies on, over ASCII text:
  `split("\n")` / `join("\n")`, `trim`, `startsWith`, `includes`,
  `replace` with a string pattern (first occurrence only), `toLowerCase`,
  and the global regex `/```/g` replaced by the empty string.
 */
module Text {
  import opened Optional

  const NL: char := '\n'

  /** The three backticks that open and close a code fence. */
  const Fence: string := "```"

  /** The ASCII characters JavaScript's `\s` and `trim` treat as white space. */
  predicate IsSpace(c: char) {
    c == ' ' || c == '\t' || c == '\n' || c == '\r' || c == '\U{B}' || c == '\U{C}'
  }

  /** The ASCII characters a regex `.` does not match. */
  predicate IsLineTerminator(c: char) {
    c == '\n' || c == '\r'
  }

  predicate StartsWith(s: string, prefix: string) {
    |prefix| <= |s| && s[..|prefix|] == prefix
  }

  // ---------------------------------------------------------------------------
  // split("\n") and join("\n")
  // ---------------------------------------------------------------------------

  /** `s.split("\n")`: the pieces between newlines; never empty, none holds a newline. */
  function Lines(s: string): (r: seq<string>)
    ensures |r| >= 1
    ensures forall i :: 0 <= i < |r| ==> NL !in r[i]
    decreases |s|
  {
    if |s| == 0 then [""]
    else
      var rest := Lines(s[1..]);
      if s[0] == NL then [""] + rest
      else [[s[0]] + rest[0]] + rest[1..]
  }

  /** `ls.join("\n")`. */
  function Join(ls: seq<string>): string
    decreases |ls|
  {
    if |ls| == 0 then ""
    else if |ls| == 1 then ls[0]
    else ls[0] + [NL] + Join(ls[1..])
  }

  predicate NoNewlines(ls: seq<string>) {
    forall i :: 0 <= i < |ls| ==> NL !in ls[i]
  }

  /** Joining the pieces of a split gives back the text. */
  lemma {:induction false} JoinLines(s: string)
    ensures Join(Lines(s)) == s
    decreases |s|
  {
    if |s| > 0 {
      var rest := Lines(s[1..]);
      JoinLines(s[1..]);
      if s[0] == NL {
        assert Lines(s) == [""] + rest;
        assert s == [NL] + s[1..];
      } else if |rest| == 1 {
        assert Lines(s) == [[s[0]] + rest[0]];
        assert s == [s[0]] + s[1..];
      } else {
        assert Lines(s) == [[s[0]] + rest[0]] + rest[1..];
        assert Lines(s)[1..] == rest[1..];
        assert Join(rest) == rest[0] + [NL] + Join(rest[1..]);
        assert s == [s[0]] + s[1..];
      }
    }
  }

  /** A text without newlines is one piece. */
  lemma {:induction false} LinesSingle(s: string)
    requires NL !in s
    ensures Lines(s) == [s]
    decreases |s|
  {
    if |s| > 0 {
      LinesSingle(s[1..]);
      assert [s[0]] + s[1..] == s;
    }
  }

  /** A leading newline splits off an empty first piece. */
  lemma LinesLeadingNewline(b: string)
    ensures Lines([NL] + b) == [""] + Lines(b)
  {
    assert ([NL] + b)[1..] == b;
  }

  /** Splitting around one newline splits both sides independently. */
  lemma {:induction false} LinesConcat(a: string, b: string)
    ensures Lines(a + [NL] + b) == Lines(a) + Lines(b)
    decreases |a|
  {
    var x := a + [NL] + b;
    if |a| == 0 {
      assert x == [NL] + b;
      LinesLeadingNewline(b);
    } else {
      var tail := a[1..] + [NL] + b;
      assert x[1..] == tail;
      assert x[0] == a[0];
      LinesConcat(a[1..], b);
      var ra := Lines(a[1..]);
      var rest := Lines(tail);
      if a[0] == NL {
        assert Lines(x) == [""] + rest;
      } else {
        assert Lines(x) == [[a[0]] + rest[0]] + rest[1..];
        assert rest[1..] == ra[1..] + Lines(b);
      }
    }
  }

  /** Splitting a join of newline-free pieces gives back the pieces. */
  lemma {:induction false} LinesJoin(ls: seq<string>)
    requires |ls| >= 1
    requires NoNewlines(ls)
    ensures Lines(Join(ls)) == ls
    decreases |ls|
  {
    if |ls| == 1 {
      LinesSingle(ls[0]);
    } else {
      LinesJoin(ls[1..]);
      LinesConcat(ls[0], Join(ls[1..]));
      LinesSingle(ls[0]);
      assert ls == [ls[0]] + ls[1..];
    }
  }

  // ---------------------------------------------------------------------------
  // trim
  // ---------------------------------------------------------------------------

  /** Leading white space removed: the longest suffix that starts with a non-space. */
  function TrimStart(s: string): (r: string)
    ensures |r| <= |s|
    decreases |s|
  {
    if |s| > 0 && IsSpace(s[0]) then TrimStart(s[1..]) else s
  }

  lemma {:induction false} TrimStartSpec(s: string)
    ensures var r := TrimStart(s);
            && r == s[|s| - |r|..]
            && (|r| > 0 ==> !IsSpace(r[0]))
            && (forall i :: 0 <= i < |s| - |r| ==> IsSpace(s[i]))
    decreases |s|
  {
    if |s| > 0 && IsSpace(s[0]) {
      TrimStartSpec(s[1..]);
    }
  }

  /** Trailing white space removed: the longest prefix that ends with a non-space. */
  function TrimEnd(s: string): (r: string)
    ensures |r| <= |s|
    decreases |s|
  {
    if |s| > 0 && IsSpace(s[|s| - 1]) then TrimEnd(s[..|s| - 1]) else s
  }

  lemma {:induction false} TrimEndSpec(s: string)
    ensures var r := TrimEnd(s);
            && r == s[..|r|]
            && (|r| > 0 ==> !IsSpace(r[|r| - 1]))
            && (forall i :: |r| <= i < |s| ==> IsSpace(s[i]))
    decreases |s|
  {
    if |s| > 0 && IsSpace(s[|s| - 1]) {
      TrimEndSpec(s[..|s| - 1]);
    }
  }

  /** `s.trim()`. */
  function Trim(s: string): string {
    TrimEnd(TrimStart(s))
  }

  /** Neither end is white space. */
  predicate IsTrimmed(s: string) {
    |s| == 0 || (!IsSpace(s[0]) && !IsSpace(s[|s| - 1]))
  }

  /**
    `trim` returns the slice of `s` that starts after the leading white space, with no
    white space at either end, and what it removes on either side is white space.
   */
  lemma TrimSpec(s: string)
    ensures IsTrimmed(Trim(s))
    ensures var a := |s| - |TrimStart(s)|;
            && a + |Trim(s)| <= |s|
            && Trim(s) == s[a..a + |Trim(s)|]
            && (forall i :: 0 <= i < a ==> IsSpace(s[i]))
            && (forall i :: a + |Trim(s)| <= i < |s| ==> IsSpace(s[i]))
  {
    TrimStartSpec(s);
    TrimIsSlice(s);
    TrimDropsSpaces(s);
  }

  lemma TrimIsSlice(s: string)
    ensures var a := |s| - |TrimStart(s)|;
            a + |Trim(s)| <= |s| && Trim(s) == s[a..a + |Trim(s)|]
  {
    var t := TrimStart(s);
    var a := |s| - |t|;
    var r := TrimEnd(t);
    TrimStartIsSuffix(s);
    TrimEndIsPrefix(t);
    assert Trim(s) == r;
    SliceOfSuffix(s, a, |r|);
  }

  lemma {:induction false} TrimStartIsSuffix(s: string)
    ensures TrimStart(s) == s[|s| - |TrimStart(s)|..]
    decreases |s|
  {
    if |s| > 0 && IsSpace(s[0]) {
      TrimStartIsSuffix(s[1..]);
    }
  }

  lemma {:induction false} TrimEndIsPrefix(s: string)
    ensures TrimEnd(s) == s[..|TrimEnd(s)|]
    decreases |s|
  {
    if |s| > 0 && IsSpace(s[|s| - 1]) {
      TrimEndIsPrefix(s[..|s| - 1]);
    }
  }

  lemma TrimDropsSpaces(s: string)
    ensures IsTrimmed(Trim(s))
    ensures var a := |s| - |TrimStart(s)|;
            forall i :: a + |Trim(s)| <= i < |s| ==> IsSpace(s[i])
  {
    var t := TrimStart(s);
    var r := TrimEnd(t);
    TrimStartSpec(s);
    TrimEndSpec(t);
    assert IsTrimmed(r) by {
      if |r| > 0 {
        assert r[0] == t[0];
      }
    }
    SpacesAfterPrefix(s, t, r);
  }

  /** Spaces that end a suffix `t` of `s` end `s` too. */
  lemma SpacesAfterPrefix(s: string, t: string, r: string)
    requires |t| <= |s| && t == s[|s| - |t|..]
    requires |r| <= |t| && forall i :: |r| <= i < |t| ==> IsSpace(t[i])
    ensures forall i :: |s| - |t| + |r| <= i < |s| ==> IsSpace(s[i])
  {
    var a := |s| - |t|;
    forall i | a + |r| <= i < |s|
      ensures IsSpace(s[i])
    {
      assert s[i] == t[i - a];
    }
  }

  lemma SliceOfSuffix(s: string, a: nat, n: nat)
    requires a + n <= |s|
    ensures s[a..][..n] == s[a..a + n]
  {
  }

  /** `trim` is the identity exactly on trimmed text. */
  lemma TrimFixedPoint(s: string)
    ensures Trim(s) == s <==> IsTrimmed(s)
  {
    TrimSpec(s);
    if IsTrimmed(s) {
      assert TrimStart(s) == s;
      assert TrimEnd(s) == s;
    }
  }

  predicate AllSpace(s: string) {
    forall i :: 0 <= i < |s| ==> IsSpace(s[i])
  }

  lemma {:induction false} TrimStartSkips(x: string, t: string)
    requires AllSpace(x) && |t| > 0 && !IsSpace(t[0])
    ensures TrimStart(x + t) == t
    decreases |x|
  {
    if |x| == 0 {
      assert x + t == t;
    } else {
      assert (x + t)[1..] == x[1..] + t;
      TrimStartSkips(x[1..], t);
    }
  }

  lemma {:induction false} TrimEndSkips(t: string, y: string)
    requires AllSpace(y) && |t| > 0 && !IsSpace(t[|t| - 1])
    ensures TrimEnd(t + y) == t
    decreases |y|
  {
    var s := t + y;
    if |y| == 0 {
      assert s == t;
    } else {
      assert s[..|s| - 1] == t + y[..|y| - 1];
      TrimEndSkips(t, y[..|y| - 1]);
    }
  }

  /** `trim` of a non-empty trimmed text wrapped in white space gives that text back. */
  lemma TrimAround(x: string, t: string, y: string)
    requires AllSpace(x) && AllSpace(y) && IsTrimmed(t) && |t| > 0
    ensures Trim(x + t + y) == t
  {
    assert x + t + y == x + (t + y);
    TrimStartSkips(x, t + y);
    TrimEndSkips(t, y);
  }

  /** A text is its trimmed part with white space on either side. */
  lemma TrimSplit(s: string) returns (x: string, y: string)
    ensures s == x + Trim(s) + y && AllSpace(x) && AllSpace(y)
  {
    TrimSpec(s);
    var a := |s| - |TrimStart(s)|;
    x, y := s[..a], s[a + |Trim(s)|..];
    assert s == x + s[a..a + |Trim(s)|] + y;
  }

  /** White space alone trims to nothing. */
  lemma {:induction false} TrimAllSpace(s: string)
    requires AllSpace(s)
    ensures Trim(s) == ""
    decreases |s|
  {
    if |s| > 0 {
      TrimAllSpace(s[1..]);
    }
  }

  // ---------------------------------------------------------------------------
  // includes, indexOf, replace (string pattern)
  // ---------------------------------------------------------------------------

  predicate OccursAt(s: string, t: string, i: int) {
    0 <= i && i + |t| <= |s| && s[i..i + |t|] == t
  }

  /** `s.includes(t)`. */
  predicate Contains(s: string, t: string) {
    exists i | 0 <= i <= |s| - |t| :: OccursAt(s, t, i)
  }

  predicate IsFirstOccurrence(s: string, t: string, i: int) {
    OccursAt(s, t, i) && forall j :: 0 <= j < i ==> !OccursAt(s, t, j)
  }

  /** The first position at or after `k` where `t` occurs in `s`. */
  function IndexOfFrom(s: string, t: string, k: nat): (r: Option<nat>)
    requires k <= |s|
    ensures r.Some? ==> k <= r.value && OccursAt(s, t, r.value)
                        && forall j :: k <= j < r.value ==> !OccursAt(s, t, j)
    ensures r.None? ==> forall j :: k <= j ==> !OccursAt(s, t, j)
    decreases |s| - k
  {
    if k + |t| > |s| then None
    else if s[k..k + |t|] == t then Some(k)
    else IndexOfFrom(s, t, k + 1)
  }

  /** `s.indexOf(t)`, with -1 as `None`: defined exactly when `s` contains `t`, and then the first occurrence. */
  function IndexOf(s: string, t: string): (r: Option<nat>)
    ensures r.Some? <==> Contains(s, t)
    ensures r.Some? ==> IsFirstOccurrence(s, t, r.value)
  {
    IndexOfFrom(s, t, 0)
  }

  /** `s.replace(t, rep)` with a string pattern: only the first occurrence is replaced. */
  function ReplaceFirst(s: string, t: string, rep: string): (r: string)
    ensures !Contains(s, t) ==> r == s
    ensures forall i :: IsFirstOccurrence(s, t, i) ==> r == s[..i] + rep + s[i + |t|..]
  {
    match IndexOf(s, t)
    case None => s
    case Some(i) =>
      FirstOccurrenceUnique(s, t, i);
      s[..i] + rep + s[i + |t|..]
  }

  lemma FirstOccurrenceUnique(s: string, t: string, i: int)
    requires IsFirstOccurrence(s, t, i)
    ensures forall j :: IsFirstOccurrence(s, t, j) ==> j == i
  {
  }

  // ---------------------------------------------------------------------------
  // toLowerCase (ASCII)
  // ---------------------------------------------------------------------------

  function LowerChar(c: char): char {
    if 'A' <= c <= 'Z' then (c as int + 32) as char else c
  }

  /** `s.toLowerCase()` on ASCII text. */
  function ToLower(s: string): (r: string)
    ensures |r| == |s|
    ensures forall i :: 0 <= i < |s| ==> r[i] == LowerChar(s[i])
  {
    seq(|s|, i requires 0 <= i < |s| => LowerChar(s[i]))
  }

  predicate IsLowerCase(s: string) {
    forall i :: 0 <= i < |s| ==> LowerChar(s[i]) == s[i]
  }

  /** Equal up to ASCII letter case. */
  predicate EqualIgnoringCase(a: string, b: string) {
    |a| == |b| && forall i :: 0 <= i < |a| ==> LowerChar(a[i]) == LowerChar(b[i])
  }

  /** Lower-casing gives lower-case text, and identifies exactly the texts that are equal up to case. */
  lemma ToLowerSpec(a: string, b: string)
    ensures IsLowerCase(ToLower(a))
    ensures ToLower(a) == ToLower(b) <==> EqualIgnoringCase(a, b)
  {
    if EqualIgnoringCase(a, b) {
      assert ToLower(a) == ToLower(b);
    }
  }

  /** The slice of `s` at `i` is `p` up to letter case. */
  predicate OccursIgnoringCaseAt(s: string, p: string, i: int) {
    0 <= i && i + |p| <= |s| && EqualIgnoringCase(s[i..i + |p|], p)
  }

  /**
    `s.toLowerCase().includes(p)` for a lower-case `p` holds exactly when
    some slice of `s` equals `p` up to letter case.
   */
  lemma ContainsLowerSpec(s: string, p: string)
    requires IsLowerCase(p)
    ensures Contains(ToLower(s), p) <==> exists i :: OccursIgnoringCaseAt(s, p, i)
  {
    var l := ToLower(s);
    if Contains(l, p) {
      var i :| 0 <= i <= |l| - |p| && OccursAt(l, p, i);
      forall k | 0 <= k < |p|
        ensures LowerChar(s[i..i + |p|][k]) == LowerChar(p[k])
      {
        assert l[i..i + |p|][k] == l[i + k];
      }
      assert OccursIgnoringCaseAt(s, p, i);
    }
    if exists i :: OccursIgnoringCaseAt(s, p, i) {
      var i :| OccursIgnoringCaseAt(s, p, i);
      forall k | 0 <= k < |p|
        ensures l[i..i + |p|][k] == p[k]
      {
        assert s[i..i + |p|][k] == s[i + k];
      }
      assert l[i..i + |p|] == p;
      assert OccursAt(l, p, i);
    }
  }

  // ---------------------------------------------------------------------------
  // Code fences
  // ---------------------------------------------------------------------------

  predicate FenceAt(s: string, i: int) {
    0 <= i && i + 3 <= |s| && s[i] == '`' && s[i + 1] == '`' && s[i + 2] == '`'
  }

  predicate HasFence(s: string) {
    exists i | 0 <= i <= |s| - 3 :: FenceAt(s, i)
  }

  lemma FenceAtIsOccurrence(s: string, i: int)
    ensures FenceAt(s, i) <==> OccursAt(s, Fence, i)
  {
    if OccursAt(s, Fence, i) {
      assert s[i..i + 3][0] == s[i] && s[i..i + 3][1] == s[i + 1] && s[i..i + 3][2] == s[i + 2];
    }
    if FenceAt(s, i) {
      assert s[i..i + 3] == Fence;
    }
  }

  /** `HasFence` is `includes("```")`. */
  lemma HasFenceIsContains(s: string)
    ensures HasFence(s) <==> Contains(s, Fence)
  {
    if HasFence(s) {
      var i :| FenceAt(s, i);
      FenceAtIsOccurrence(s, i);
    }
    if Contains(s, Fence) {
      var i :| 0 <= i <= |s| - 3 && OccursAt(s, Fence, i);
      FenceAtIsOccurrence(s, i);
    }
  }

  /** `s.replace(/```/g, "")`: every fence removed, scanning left to right. */
  function DropFences(s: string): (r: string)
    ensures |r| <= |s|
    ensures !HasFence(s) ==> r == s
    ensures |s| > 0 && !FenceAt(s, 0) ==> |r| > 0 && r[0] == s[0]
    decreases |s|
  {
    if |s| < 3 then s
    else if FenceAt(s, 0) then DropFences(s[3..])
    else
      FenceInSuffix(s, 1);
      [s[0]] + DropFences(s[1..])
  }

  /** A fence in a suffix is a fence in the whole text. */
  lemma FenceInSuffix(s: string, k: nat)
    requires k <= |s|
    ensures HasFence(s[k..]) ==> HasFence(s)
  {
    if HasFence(s[k..]) {
      var i :| 0 <= i <= |s[k..]| - 3 && FenceAt(s[k..], i);
      assert FenceAt(s, i + k);
    }
  }

  /**
    A character put before a fence-free text makes no fence unless it is a backtick
    and the text starts with two more.  This is the step shared by every left-to-right
    fence remover.
   */
  lemma ConsNoFence(c: char, tail: string)
    requires !HasFence(tail)
    requires c == '`' ==> !(|tail| >= 2 && tail[0] == '`' && tail[1] == '`')
    ensures !HasFence([c] + tail)
  {
    var r := [c] + tail;
    forall i | FenceAt(r, i)
      ensures false
    {
      if i > 0 {
        assert FenceAt(tail, i - 1);
      }
    }
  }

  /** What `/```/g` leaves behind holds no fence. */
  lemma {:induction false} DropFencesNoFence(s: string)
    ensures !HasFence(DropFences(s))
    decreases |s|
  {
    if |s| < 3 {
    } else if FenceAt(s, 0) {
      DropFencesNoFence(s[3..]);
    } else {
      DropFencesNoFence(s[1..]);
      var tail := DropFences(s[1..]);
      if s[0] == '`' && s[1] == '`' {
        // s[2] is not a backtick, so it survives right behind s[1]
        assert !FenceAt(s[1..], 0);
        if |s| > 3 {
          assert tail == [s[1]] + DropFences(s[2..]);
          assert |s[2..]| > 0 && !FenceAt(s[2..], 0);
        }
      } else if s[0] == '`' {
        assert |s[1..]| > 0 && !FenceAt(s[1..], 0);
      }
      ConsNoFence(s[0], tail);
    }
  }

  /** No fence, and no backtick at the end: no fence can start inside it, whatever follows. */
  predicate EndsClear(p: string) {
    !HasFence(p) && (|p| == 0 || p[|p| - 1] != '`')
  }

  /** A fence-free text followed by anything but a backtick ends clear. */
  lemma SnocNoFence(s: string, c: char)
    requires !HasFence(s) && c != '`'
    ensures EndsClear(s + [c])
  {
    var r := s + [c];
    forall i | FenceAt(r, i)
      ensures false
    {
      if i + 3 <= |s| {
        assert FenceAt(s, i);
      }
    }
  }

  /** A fence in a prefix is a fence in the whole text. */
  lemma FenceInPrefix(p: string, q: string)
    ensures HasFence(p) ==> HasFence(p + q)
  {
    if HasFence(p) {
      var i :| 0 <= i <= |p| - 3 && FenceAt(p, i);
      assert FenceAt(p + q, i);
    }
  }

  /** The first character of a text that ends clear starts no fence, whatever follows. */
  lemma ClearHead(p: string, q: string)
    requires EndsClear(p) && |p| > 0
    ensures !FenceAt(p + q, 0)
    ensures EndsClear(p[1..])
    ensures (p + q)[1..] == p[1..] + q
  {
    if |p| >= 3 {
      assert !FenceAt(p, 0);
    } else {
      assert (p + q)[|p| - 1] == p[|p| - 1];
    }
    FenceInSuffix(p, 1);
  }

  /** `/```/g` drops a fence at the start. */
  lemma DropFence(q: string)
    ensures DropFences(Fence + q) == DropFences(q)
  {
    assert (Fence + q)[3..] == q;
  }

  /** A text is its first character followed by the rest. */
  lemma ConsSplit(p: string, d: string)
    requires |p| > 0
    ensures [p[0]] + (p[1..] + d) == p + d
  {
    assert [p[0]] + p[1..] == p;
  }

  /** One step of `/```/g` over a first character that starts no fence. */
  lemma DropFencesStep(p: string, q: string)
    requires |p| > 0 && |p + q| >= 3 && !FenceAt(p + q, 0)
    ensures DropFences(p + q) == [p[0]] + DropFences(p[1..] + q)
  {
    assert (p + q)[1..] == p[1..] + q;
  }

  /**
    What `/```/g` keeps: text in which no fence starts comes through unchanged, in
    front of whatever the rest becomes.
   */
  lemma {:induction false} DropFencesKeepsText(p: string, q: string)
    requires EndsClear(p)
    ensures DropFences(p + q) == p + DropFences(q)
    decreases |p|
  {
    if |p| == 0 {
      assert p + q == q;
    } else if |p + q| < 3 {
      assert |q| < 3;
    } else {
      ClearHead(p, q);
      DropFencesKeepsText(p[1..], q);
      DropFencesStep(p, q);
      ConsSplit(p, DropFences(q));
    }
  }

  lemma TicksCommute(b: string)
    requires forall i :: 0 <= i < |b| ==> b[i] == '`'
    ensures b + Fence == Fence + b
  {
  }

  /** One or two backticks before a fence: the first three backticks go, and the rest stay. */
  lemma TicksBeforeFence(b: string)
    requires 0 < |b| < 3 && forall i :: 0 <= i < |b| ==> b[i] == '`'
    ensures DropFences(b + Fence) == b
  {
    TicksCommute(b);
    DropFence(b);
  }

  lemma ConcatAssoc(a: string, b: string, c: string)
    ensures a + b + c == a + (b + c)
  {
  }

  /** The backticks ending a fence-free text: the text before them ends clear. */
  lemma TrailingTicks(t: string) returns (p: string, b: string)
    requires !HasFence(t) && !EndsClear(t)
    ensures t == p + b && EndsClear(p)
    ensures 0 < |b| < 3 && forall i :: 0 <= i < |b| ==> b[i] == '`'
  {
    var k := if |t| >= 2 && t[|t| - 2] == '`' then 2 else 1;
    p, b := t[..|t| - k], t[|t| - k..];
    assert t == p + b;
    FenceInPrefix(p, b);
    if |p| > 0 && k == 2 {
      assert !FenceAt(t, |t| - 3);
    }
  }

  /** A fence-free text between two fences comes out alone. */
  lemma DropFencesAroundText(t: string)
    requires !HasFence(t)
    ensures DropFences(Fence + t + Fence) == t
  {
    ConcatAssoc(Fence, t, Fence);
    DropFence(t + Fence);
    if EndsClear(t) {
      DropFencesKeepsText(t, Fence);
      DropFence("");
    } else {
      var p, b := TrailingTicks(t);
      ConcatAssoc(p, b, Fence);
      DropFencesKeepsText(p, b + Fence);
      TicksBeforeFence(b);
    }
  }
}
