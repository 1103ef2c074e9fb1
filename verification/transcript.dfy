/**
  The chat view of src/app/page.tsx: how the two transcripts the server returns
  become one list of messages, and how each message is split into a code language
  and a body for display.
 */
module Transcript {
  import opened Text

  datatype Role = User | LlmA | LlmB

  datatype Message = Message(role: Role, content: string)

  /** The messages one round `i` of the loop pushes: the planner's entry, then the coder's. */
  function Round(a: seq<string>, b: seq<string>, i: nat): seq<Message> {
    (if i < |a| then [Message(LlmA, a[i])] else []) + (if i < |b| then [Message(LlmB, b[i])] else [])
  }

  /** The messages of the first `n` rounds. */
  function Rounds(a: seq<string>, b: seq<string>, n: nat): seq<Message>
    decreases n
  {
    if n == 0 then [] else Rounds(a, b, n - 1) + Round(a, b, n - 1)
  }

  function Max(x: nat, y: nat): nat {
    if x >= y then x else y
  }

  function Min(x: nat, y: nat): nat {
    if x <= y then x else y
  }

  /** Each entry of `xs`, as a message with the given role. */
  function Tagged(role: Role, xs: seq<string>): (r: seq<Message>)
    ensures |r| == |xs|
    ensures forall j :: 0 <= j < |xs| ==> r[j] == Message(role, xs[j])
  {
    seq(|xs|, j requires 0 <= j < |xs| => Message(role, xs[j]))
  }

  /** The contents of the messages with the given role, in order. */
  function Only(ms: seq<Message>, role: Role): seq<string>
    decreases |ms|
  {
    if |ms| == 0 then []
    else Only(ms[..|ms| - 1], role) + (if ms[|ms| - 1].role == role then [ms[|ms| - 1].content] else [])
  }

  lemma {:induction false} OnlyConcat(x: seq<Message>, y: seq<Message>, role: Role)
    ensures Only(x + y, role) == Only(x, role) + Only(y, role)
    decreases |y|
  {
    if |y| == 0 {
      assert x + y == x;
    } else {
      var n := |y| - 1;
      assert (x + y)[..|x + y| - 1] == x + y[..n];
      OnlyConcat(x, y[..n], role);
    }
  }

  /** The first `n` rounds hold the first `n` entries of each transcript, and nothing else. */
  lemma {:induction false} RoundsLength(a: seq<string>, b: seq<string>, n: nat)
    ensures |Rounds(a, b, n)| == Min(n, |a|) + Min(n, |b|)
    decreases n
  {
    if n > 0 {
      RoundsLength(a, b, n - 1);
    }
  }

  /**
    While both transcripts last: planner entry `j` at `2j`, coder entry `j` at `2j + 1`,
    for the first `n` entries of each.
   */
  function Pairs(a: seq<string>, b: seq<string>, n: nat): (r: seq<Message>)
    requires n <= |a| && n <= |b|
    ensures |r| == 2 * n
    decreases n
  {
    if n == 0 then [] else Pairs(a, b, n - 1) + [Message(LlmA, a[n - 1]), Message(LlmB, b[n - 1])]
  }

  /** The first rounds, while both transcripts last, are the pairs. */
  lemma {:induction false} RoundsArePairs(a: seq<string>, b: seq<string>, n: nat)
    requires n <= |a| && n <= |b|
    ensures Rounds(a, b, n) == Pairs(a, b, n)
    decreases n
  {
    if n > 0 {
      RoundsArePairs(a, b, n - 1);
      assert Round(a, b, n - 1) == [Message(LlmA, a[n - 1]), Message(LlmB, b[n - 1])];
    }
  }

  /** Keeping one role of the pairs gives that role's first entries. */
  lemma {:induction false} PairsOnly(a: seq<string>, b: seq<string>, n: nat)
    requires n <= |a| && n <= |b|
    ensures Only(Pairs(a, b, n), LlmA) == a[..n]
    ensures Only(Pairs(a, b, n), LlmB) == b[..n]
    decreases n
  {
    if n > 0 {
      PairsOnly(a, b, n - 1);
      OnlyAppendPair(Pairs(a, b, n - 1), a[n - 1], b[n - 1]);
      assert a[..n] == a[..n - 1] + [a[n - 1]];
      assert b[..n] == b[..n - 1] + [b[n - 1]];
    }
  }

  lemma OnlyAppendPair(p: seq<Message>, x: string, y: string)
    ensures Only(p + [Message(LlmA, x), Message(LlmB, y)], LlmA) == Only(p, LlmA) + [x]
    ensures Only(p + [Message(LlmA, x), Message(LlmB, y)], LlmB) == Only(p, LlmB) + [y]
  {
    var q := [Message(LlmA, x), Message(LlmB, y)];
    OnlyConcat(p, q, LlmA);
    OnlyConcat(p, q, LlmB);
    OnlyPair(x, y);
  }

  lemma OnlyPair(x: string, y: string)
    ensures Only([Message(LlmA, x), Message(LlmB, y)], LlmA) == [x]
    ensures Only([Message(LlmA, x), Message(LlmB, y)], LlmB) == [y]
  {
    var one := [Message(LlmA, x)];
    assert one[..0] == [];
    assert Only(one, LlmA) == [x] && Only(one, LlmB) == [];
    var q := one + [Message(LlmB, y)];
    assert q[..1] == one;
  }

  /** Keeping one role of tagged entries gives the entries back, and keeping another gives nothing. */
  lemma {:induction false} OnlyTagged(role: Role, other: Role, xs: seq<string>)
    requires other != role
    ensures Only(Tagged(role, xs), role) == xs
    ensures Only(Tagged(role, xs), other) == []
    decreases |xs|
  {
    if |xs| > 0 {
      var n := |xs| - 1;
      OnlyTagged(role, other, xs[..n]);
      assert Tagged(role, xs)[..n] == Tagged(role, xs[..n]);
      assert xs == xs[..n] + [xs[n]];
    }
  }

  /** The pairs alternate: planner entry `j` at `2j`, coder entry `j` at `2j + 1`. */
  lemma {:induction false} PairsAlternate(a: seq<string>, b: seq<string>, n: nat)
    requires n <= |a| && n <= |b|
    ensures forall j :: 0 <= j < n ==> Pairs(a, b, n)[2 * j] == Message(LlmA, a[j]) && Pairs(a, b, n)[2 * j + 1] == Message(LlmB, b[j])
    decreases n
  {
    if n > 0 {
      PairsAlternate(a, b, n - 1);
    }
  }

  /** A tagged slice one entry longer. */
  lemma TaggedStep(role: Role, xs: seq<string>, m: nat, n: nat)
    requires m <= n < |xs|
    ensures Tagged(role, xs[m..n + 1]) == Tagged(role, xs[m..n]) + [Message(role, xs[n])]
  {
    assert xs[m..n + 1] == xs[m..n] + [xs[n]];
  }

  /** Once the coder has run out, each round adds one planner entry. */
  lemma {:induction false} RoundsTailA(a: seq<string>, b: seq<string>, n: nat)
    requires |b| <= |a| && |b| <= n
    ensures Rounds(a, b, n) == Rounds(a, b, |b|) + Tagged(LlmA, a[|b|..Min(n, |a|)])
    decreases n
  {
    if n > |b| {
      RoundsTailA(a, b, n - 1);
      if n - 1 < |a| {
        assert Round(a, b, n - 1) == [Message(LlmA, a[n - 1])];
        TaggedStep(LlmA, a, |b|, n - 1);
      } else {
        assert Round(a, b, n - 1) == [];
      }
    } else {
      assert a[|b|..Min(n, |a|)] == [];
    }
  }

  /** Once the planner has run out, each round adds one coder entry. */
  lemma {:induction false} RoundsTailB(a: seq<string>, b: seq<string>, n: nat)
    requires |a| <= |b| && |a| <= n
    ensures Rounds(a, b, n) == Rounds(a, b, |a|) + Tagged(LlmB, b[|a|..Min(n, |b|)])
    decreases n
  {
    if n > |a| {
      RoundsTailB(a, b, n - 1);
      if n - 1 < |b| {
        assert Round(a, b, n - 1) == [Message(LlmB, b[n - 1])];
        TaggedStep(LlmB, b, |a|, n - 1);
      } else {
        assert Round(a, b, n - 1) == [];
      }
    } else {
      assert b[|a|..Min(n, |b|)] == [];
    }
  }

  /**
    The order the chat view shows: the two transcripts alternate, planner first, while
    both last, and the rest of the longer one follows.
   */
  function Interleaving(a: seq<string>, b: seq<string>): seq<Message> {
    var m := Min(|a|, |b|);
    Pairs(a, b, m) + (if |a| >= |b| then Tagged(LlmA, a[m..]) else Tagged(LlmB, b[m..]))
  }

  /**
    The loop of page.tsx: for `i` below the longer length, push the planner's entry `i`
    if there is one, then the coder's.  The result is the interleaving.
   */
  method Interleave(a: seq<string>, b: seq<string>) returns (msgs: seq<Message>)
    ensures msgs == Interleaving(a, b)
  {
    var maxLength := Max(|a|, |b|);
    msgs := [];
    var i := 0;
    while i < maxLength
      invariant i <= maxLength
      invariant msgs == Rounds(a, b, i)
    {
      if i < |a| {
        msgs := msgs + [Message(LlmA, a[i])];
      }
      if i < |b| {
        msgs := msgs + [Message(LlmB, b[i])];
      }
      i := i + 1;
    }
    LoopComputesInterleaving(a, b);
  }

  /** Run to the longer length, the loop's rounds are the interleaving. */
  lemma LoopComputesInterleaving(a: seq<string>, b: seq<string>)
    ensures Rounds(a, b, Max(|a|, |b|)) == Interleaving(a, b)
  {
    var m := Min(|a|, |b|);
    RoundsArePairs(a, b, m);
    if |a| >= |b| {
      RoundsTailA(a, b, |a|);
      assert a[m..Min(|a|, |a|)] == a[m..];
    } else {
      RoundsTailB(a, b, |b|);
      assert b[m..Min(|b|, |b|)] == b[m..];
    }
  }

  /**
    What the interleaving holds: every entry of both transcripts, keeping one role
    gives back that transcript, the two alternate while both last, and the rest of
    the longer one follows in order.
   */
  lemma InterleavingSpec(a: seq<string>, b: seq<string>)
    ensures var msgs := Interleaving(a, b);
            && |msgs| == |a| + |b|
            && Only(msgs, LlmA) == a && Only(msgs, LlmB) == b
            && (forall j :: 0 <= j < Min(|a|, |b|) ==> msgs[2 * j] == Message(LlmA, a[j]) && msgs[2 * j + 1] == Message(LlmB, b[j]))
            && (|a| >= |b| ==> msgs[2 * |b|..] == Tagged(LlmA, a[|b|..]))
            && (|a| < |b| ==> msgs[2 * |a|..] == Tagged(LlmB, b[|a|..]))
  {
    InterleavingContents(a, b);
    PairsAlternate(a, b, Min(|a|, |b|));
  }

  /** Keeping one role of the interleaving gives back that role's transcript. */
  lemma InterleavingContents(a: seq<string>, b: seq<string>)
    ensures Only(Interleaving(a, b), LlmA) == a && Only(Interleaving(a, b), LlmB) == b
  {
    var m := Min(|a|, |b|);
    PairsOnly(a, b, m);
    if |a| >= |b| {
      assert b[..m] == b;
      ContentsAfterPairs(Pairs(a, b, m), LlmA, LlmB, a, m);
    } else {
      assert a[..m] == a;
      ContentsAfterPairs(Pairs(a, b, m), LlmB, LlmA, b, m);
    }
  }

  /** Messages holding the first `m` entries of the longer transcript, followed by the rest of it. */
  lemma ContentsAfterPairs(p: seq<Message>, role: Role, other: Role, xs: seq<string>, m: nat)
    requires other != role && m <= |xs|
    requires Only(p, role) == xs[..m]
    ensures Only(p + Tagged(role, xs[m..]), role) == xs
    ensures Only(p + Tagged(role, xs[m..]), other) == Only(p, other)
  {
    OnlyConcat(p, Tagged(role, xs[m..]), role);
    OnlyConcat(p, Tagged(role, xs[m..]), other);
    OnlyTagged(role, other, xs[m..]);
    assert xs == xs[..m] + xs[m..];
  }

  // ---------------------------------------------------------------------------
  // Rendering one message
  // ---------------------------------------------------------------------------

  const PlainText := "plaintext"

  /** What the view shows: the highlighting language and the text. */
  datatype Rendered = Rendered(language: string, body: string)

  /**
    The trimmed content; if it starts with a fence, the first line, trimmed and with
    every fence removed, names the language (unless that leaves nothing), and the
    remaining lines, joined and trimmed, are the body.
   */
  function Render(content: string): (r: Rendered)
    ensures !StartsWith(Trim(content), Fence) ==> r == Rendered(PlainText, Trim(content))
    ensures r.language != ""
    ensures IsTrimmed(r.body)
  {
    var c := Trim(content);
    TrimSpec(content);
    if StartsWith(c, Fence) then
      var lines := Lines(c);
      var first := DropFences(Trim(lines[0]));
      TrimSpec(Join(lines[1..]));
      Rendered(if first == "" then PlainText else first, Trim(Join(lines[1..])))
    else
      Rendered(PlainText, c)
  }

  /** A language line: no newline, no fence, and no white space at its end. */
  predicate IsLanguageLine(lang: string) {
    NL !in lang && !HasFence(lang) && (|lang| == 0 || !IsSpace(lang[|lang| - 1]))
  }

  /** The language a first line names, with `plaintext` when it names none. */
  function LanguageOf(lang: string): string {
    if lang == "" then PlainText else lang
  }

  lemma FenceLine(lang: string)
    requires IsLanguageLine(lang)
    ensures Lines(Fence + lang) == [Fence + lang]
    ensures Trim(Fence + lang) == Fence + lang
    ensures DropFences(Fence + lang) == lang
  {
    var line := Fence + lang;
    assert NL !in line by {
      assert forall i :: 0 <= i < |line| ==> line[i] == (if i < 3 then '`' else lang[i - 3]);
    }
    LinesSingle(line);
    TrimFixedPoint(line);
    assert FenceAt(line, 0);
    assert line[3..] == lang;
  }

  /** A message whose trimmed content is a language line and more lines. */
  lemma RenderLines(content: string, lang: string, rest: string)
    requires IsLanguageLine(lang)
    requires Trim(content) == Fence + lang + [NL] + rest
    ensures Render(content) == Rendered(LanguageOf(lang), Trim(rest))
  {
    var line := Fence + lang;
    FenceLine(lang);
    assert Trim(content)[..3] == Fence;
    LinesConcat(line, rest);
    JoinLines(rest);
  }

  /** A message whose trimmed content is only a language line. */
  lemma RenderLine(content: string, lang: string)
    requires IsLanguageLine(lang)
    requires Trim(content) == Fence + lang
    ensures Render(content) == Rendered(LanguageOf(lang), "")
  {
    FenceLine(lang);
    assert (Fence + lang)[..3] == Fence;
  }

  /** The trimmed language line is a trimmed, non-empty text. */
  lemma LanguageLineTrimmed(lang: string)
    requires IsLanguageLine(lang)
    ensures IsTrimmed(Fence + lang) && |Fence + lang| > 0
  {
    FenceLine(lang);
    TrimFixedPoint(Fence + lang);
  }

  /** A fenced message whose body holds more than white space. */
  lemma RenderFencedText(lang: string, x: string, t: string, y: string)
    requires IsLanguageLine(lang)
    requires AllSpace(x) && AllSpace(y) && IsTrimmed(t) && |t| > 0
    ensures Render(Fence + lang + [NL] + (x + t + y)) == Rendered(LanguageOf(lang), t)
  {
    var mid := Fence + lang + [NL] + (x + t);
    assert Fence + lang + [NL] + (x + t + y) == "" + mid + y;
    assert mid[0] == '`' && mid[|mid| - 1] == t[|t| - 1];
    TrimAround("", mid, y);
    RenderLines(Fence + lang + [NL] + (x + t + y), lang, x + t);
    assert x + t + "" == x + t;
    TrimAround(x, t, "");
  }

  /** A fenced message whose body is only white space. */
  lemma RenderFencedBlank(lang: string, body: string)
    requires IsLanguageLine(lang) && AllSpace(body)
    ensures Render(Fence + lang + [NL] + body) == Rendered(LanguageOf(lang), "")
  {
    LanguageLineTrimmed(lang);
    assert AllSpace([NL] + body);
    assert Fence + lang + [NL] + body == "" + (Fence + lang) + ([NL] + body);
    TrimAround("", Fence + lang, [NL] + body);
    RenderLine(Fence + lang + [NL] + body, lang);
  }

  /**
    A fenced message comes apart into its language and its body: the first line, after
    the opening fence, names the language, leading white space included, since the
    line is trimmed before the fence is removed; the rest, trimmed, is the body.
   */
  lemma RenderFenced(lang: string, body: string)
    requires IsLanguageLine(lang)
    ensures Render(Fence + lang + [NL] + body) == Rendered(LanguageOf(lang), Trim(body))
  {
    var x, y := TrimSplit(body);
    TrimSpec(body);
    if |Trim(body)| > 0 {
      RenderFencedText(lang, x, Trim(body), y);
    } else {
      assert AllSpace(body) by {
        assert body == x + y;
      }
      RenderFencedBlank(lang, body);
      TrimAllSpace(body);
    }
  }

  /** A message that is only an opening fence line has an empty body. */
  lemma RenderFenceOnly(lang: string)
    requires IsLanguageLine(lang)
    ensures Render(Fence + lang) == Rendered(LanguageOf(lang), "")
  {
    FenceLine(lang);
    RenderLine(Fence + lang, lang);
  }

  /**
    Only the first line loses its fence: a closing fence on the last line stays in the
    body that is shown.
   */
  lemma TrailingFenceStays(lang: string, code: string)
    requires IsLanguageLine(lang)
    requires |code| > 0 && !IsSpace(code[0])
    ensures Render(Fence + lang + [NL] + code + [NL] + Fence) == Rendered(LanguageOf(lang), code + [NL] + Fence)
  {
    var body := code + [NL] + Fence;
    assert body[0] == code[0] && body[|body| - 1] == '`';
    TrimFixedPoint(body);
    RenderFenced(lang, body);
    assert Fence + lang + [NL] + code + [NL] + Fence == Fence + lang + [NL] + body;
  }
}
