/**
  Turning a coder reply into files (backend/utils.js:1-47).

  `CleanCode` is `cleanCode`: every code fence removed, together with the language tag
  that follows an opening fence.  `ParseCodeFiles` is `parseCodeFiles`: a scan over the
  reply's lines that opens a file at every `FILE: <path>` line and keeps only the lines
  inside triple-backtick fences.  `FileBlocks` restates the scan block by block, and
  the lemmas below are stated against it.
 */
module CodeFiles {
  import opened Optional
  import opened Text
  import opened Blocks

  // ---------------------------------------------------------------------------
  // cleanCode
  // ---------------------------------------------------------------------------

  predicate IsLetter(c: char) {
    'a' <= c <= 'z' || 'A' <= c <= 'Z'
  }

  /** The length of the longest run of ASCII letters at the start of `s`. */
  function LetterRun(s: string): (n: nat)
    ensures n <= |s|
    ensures forall i :: 0 <= i < n ==> IsLetter(s[i])
    ensures n < |s| ==> !IsLetter(s[n])
    decreases |s|
  {
    if |s| > 0 && IsLetter(s[0]) then 1 + LetterRun(s[1..]) else 0
  }

  // `s.replace(/```[a-zA-Z]*/g, "")`: every fence removed with the letters right after it.
  function StripFenceTags(s: string): (r: string)
    ensures |r| <= |s|
    ensures !HasFence(s) ==> r == s
    ensures |s| > 0 && !FenceAt(s, 0) ==> |r| > 0 && r[0] == s[0]
    decreases |s|
  {
    if |s| < 3 then s
    else if FenceAt(s, 0) then StripFenceTags(s[3 + LetterRun(s[3..])..])
    else
      FenceInSuffix(s, 1);
      [s[0]] + StripFenceTags(s[1..])
  }

  /** `cleanCode`: never longer than its input, holds no fence, and leaves fence-free text alone. */
  function CleanCode(code: string): (r: string)
    ensures |r| <= |code|
    ensures !HasFence(r)
    ensures !HasFence(code) ==> r == code
  {
    DropFencesNoFence(StripFenceTags(code));
    DropFences(StripFenceTags(code))
  }

  /** The first pass already removes every fence, so the second `replace` of `cleanCode` never changes anything. */
  lemma {:induction false} StripFenceTagsNoFence(s: string)
    ensures !HasFence(StripFenceTags(s))
    decreases |s|
  {
    if |s| < 3 {
    } else if FenceAt(s, 0) {
      StripFenceTagsNoFence(s[3 + LetterRun(s[3..])..]);
    } else {
      StripFenceTagsNoFence(s[1..]);
      var tail := StripFenceTags(s[1..]);
      if s[0] == '`' && s[1] == '`' {
        assert !FenceAt(s[1..], 0);
        if |s| > 3 {
          assert tail == [s[1]] + StripFenceTags(s[2..]);
          assert |s[2..]| > 0 && !FenceAt(s[2..], 0);
        }
      } else if s[0] == '`' {
        assert |s[1..]| > 0 && !FenceAt(s[1..], 0);
      }
      ConsNoFence(s[0], tail);
    }
  }

  lemma CleanCodeIsFirstPass(code: string)
    ensures CleanCode(code) == StripFenceTags(code)
  {
    StripFenceTagsNoFence(code);
  }

  predicate AllLetters(tag: string) {
    forall i :: 0 <= i < |tag| ==> IsLetter(tag[i])
  }

  /** A run of letters followed by a non-letter: the run is exactly the letters. */
  lemma {:induction false} LetterRunPrefix(tag: string, q: string)
    requires AllLetters(tag) && (|q| == 0 || !IsLetter(q[0]))
    ensures LetterRun(tag + q) == |tag|
    decreases |tag|
  {
    if |tag| == 0 {
      assert tag + q == q;
    } else {
      assert (tag + q)[1..] == tag[1..] + q;
      LetterRunPrefix(tag[1..], q);
    }
  }

  /** The first pass at a fence: the fence and the letters after it go. */
  lemma StripAtFence(s: string)
    requires FenceAt(s, 0)
    ensures StripFenceTags(s) == StripFenceTags(s[3 + LetterRun(s[3..])..])
  {
  }

  lemma FenceTagSplit(tag: string, q: string)
    ensures var s := Fence + tag + q;
            FenceAt(s, 0) && s[3..] == tag + q && s[3 + |tag|..] == q
  {
  }

  // `/```[a-zA-Z]*/g` drops a fence at the start together with the language tag after it.
  lemma StripFenceTag(tag: string, q: string)
    requires AllLetters(tag) && (|q| == 0 || !IsLetter(q[0]))
    ensures StripFenceTags(Fence + tag + q) == StripFenceTags(q)
  {
    FenceTagSplit(tag, q);
    StripAtFence(Fence + tag + q);
    LetterRunPrefix(tag, q);
  }

  /** One step of the first pass over a first character that starts no fence. */
  lemma StripFenceTagsStep(p: string, q: string)
    requires |p| > 0 && |p + q| >= 3 && !FenceAt(p + q, 0)
    ensures StripFenceTags(p + q) == [p[0]] + StripFenceTags(p[1..] + q)
  {
    assert (p + q)[1..] == p[1..] + q;
  }

  /** Text in which no fence starts comes through the first pass unchanged. */
  lemma {:induction false} StripFenceTagsKeepsText(p: string, q: string)
    requires EndsClear(p)
    ensures StripFenceTags(p + q) == p + StripFenceTags(q)
    decreases |p|
  {
    if |p| == 0 {
      assert p + q == q;
    } else if |p + q| < 3 {
      assert |q| < 3;
    } else {
      ClearHead(p, q);
      StripFenceTagsKeepsText(p[1..], q);
      StripFenceTagsStep(p, q);
      ConsSplit(p, StripFenceTags(q));
    }
  }

  /** What `cleanCode` keeps: text in which no fence starts comes through unchanged. */
  lemma CleanCodeKeepsText(p: string, q: string)
    requires EndsClear(p)
    ensures CleanCode(p + q) == p + CleanCode(q)
  {
    CleanCodeIsFirstPass(p + q);
    CleanCodeIsFirstPass(q);
    StripFenceTagsKeepsText(p, q);
  }

  /** What `cleanCode` drops: a fence, together with the language tag that follows it. */
  lemma CleanCodeDropsFence(tag: string, q: string)
    requires AllLetters(tag) && (|q| == 0 || !IsLetter(q[0]))
    ensures CleanCode(Fence + tag + q) == CleanCode(q)
  {
    CleanCodeIsFirstPass(Fence + tag + q);
    CleanCodeIsFirstPass(q);
    StripFenceTag(tag, q);
  }

  /** A fenced block with a language tag comes out as the code between its fence lines. */
  lemma CleanCodeOfFenced(tag: string, code: string)
    requires AllLetters(tag) && !HasFence(code)
    ensures CleanCode(Fence + tag + [NL] + code + [NL] + Fence) == [NL] + code + [NL]
  {
    var body := [NL] + code + [NL];
    SnocNoFence(code, NL);
    ConsNoFence(NL, code + [NL]);
    assert [NL] + (code + [NL]) == body;
    assert EndsClear(body);
    assert Fence + tag + [NL] + code + [NL] + Fence == Fence + tag + (body + Fence);
    CleanCodeDropsFence(tag, body + Fence);
    CleanCodeKeepsText(body, Fence);
    assert Fence == Fence + "" + "";
    CleanCodeDropsFence("", "");
  }

  // ---------------------------------------------------------------------------
  // The FILE: marker, `line.match(/^FILE:\s*(.+)$/)`
  // ---------------------------------------------------------------------------

  const FileTag: string := "FILE:"

  /** The length of the leading white-space run of `s`. */
  function SpaceRun(s: string): (n: nat)
    ensures n <= |s|
  {
    |s| - |TrimStart(s)|
  }

  lemma SpaceRunSpec(s: string)
    ensures forall i :: 0 <= i < SpaceRun(s) ==> IsSpace(s[i])
    ensures SpaceRun(s) < |s| ==> !IsSpace(s[SpaceRun(s)])
  {
    TrimStartSpec(s);
  }

  /**
    `k` is a way to split what follows `FILE:` between `\s*` and `(.+)$`: the first
    `k` characters are white space and the rest is non-empty and free of line terminators.
   */
  ghost predicate RegexSplit(rest: string, k: int) {
    && 0 <= k < |rest|
    && (forall i :: 0 <= i < k ==> IsSpace(rest[i]))
    && (forall i :: k <= i < |rest| ==> !IsLineTerminator(rest[i]))
  }

  /**
    The group captured by `/^FILE:\s*(.+)$/`, if the line matches.  The greedy `\s*`
    takes the whole white-space run unless that leaves nothing for `.+`, in which
    case it gives back one character.
   */
  function FileMarker(line: string): (r: Option<string>)
  {
    if !StartsWith(line, FileTag) || |line| == |FileTag| then None
    else
      var rest := line[|FileTag|..];
      var k := if SpaceRun(rest) < |rest| then SpaceRun(rest) else |rest| - 1;
      if exists i | k <= i < |rest| :: IsLineTerminator(rest[i]) then None
      else Some(rest[k..])
  }

  /**
    `FileMarker` follows the regex: it matches exactly when some split exists, and then
    captures what follows the longest one.
   */
  lemma FileMarkerIsRegex(line: string)
    ensures FileMarker(line).Some? <==>
            StartsWith(line, FileTag) && exists k :: RegexSplit(line[|FileTag|..], k)
    ensures FileMarker(line).Some? ==>
            var rest := line[|FileTag|..];
            exists k :: RegexSplit(rest, k) && FileMarker(line).value == rest[k..]
                        && forall k' :: RegexSplit(rest, k') ==> k' <= k
  {
    if StartsWith(line, FileTag) && |line| > |FileTag| {
      var rest := line[|FileTag|..];
      var n := SpaceRun(rest);
      SpaceRunSpec(rest);
      var k := if n < |rest| then n else |rest| - 1;
      forall k' | RegexSplit(rest, k')
        ensures k' <= k && RegexSplit(rest, k)
      {
      }
      if RegexSplit(rest, k) {
        assert FileMarker(line) == Some(rest[k..]);
      } else if FileMarker(line).Some? {
        assert RegexSplit(rest, k);
      }
    } else if StartsWith(line, FileTag) {
      assert |line[|FileTag|..]| == 0;
    }
  }

  /**
    `FILE:` followed by spaces only still matches: `\s*` gives back one space for `.+`.
    The name it yields trims to nothing.
   */
  lemma BlankMarker(line: string)
    requires StartsWith(line, FileTag) && |line| > |FileTag|
    requires forall i :: |FileTag| <= i < |line| ==> line[i] == ' '
    ensures FileMarker(line) == Some(" ")
    ensures MarkerName(line) == ""
  {
    var rest := line[|FileTag|..];
    assert forall i :: 0 <= i < |rest| ==> rest[i] == line[i + |FileTag|];
    TrimStartSpec(rest);
    assert |TrimStart(rest)| == 0;
    assert rest[|rest| - 1..] == " ";
    assert TrimStart(" ") == "";
  }

  /** A bare `FILE:` does not match: `.+` needs at least one character. */
  lemma BareTagNoMarker()
    ensures FileMarker(FileTag).None?
  {
  }

  predicate IsMarkerLine(line: string) {
    FileMarker(line).Some?
  }

  /** `fileMatch[1].trim()`; empty for a non-marker line. */
  function MarkerName(line: string): string {
    match FileMarker(line)
    case None => ""
    case Some(group) => Trim(group)
  }

  /** `line.trim().startsWith("```")`. */
  predicate IsFenceLine(line: string) {
    StartsWith(Trim(line), Fence)
  }

  // ---------------------------------------------------------------------------
  // parseCodeFiles, line by line
  // ---------------------------------------------------------------------------

  /**
    The loop variables of `parseCodeFiles`.  `current` is the current file name, with
    `""` standing for both `null` and an empty name: the code only ever tests its truth.
   */
  datatype Scan = Scan(files: map<string, string>, current: string, content: seq<string>, inCode: bool)

  const Initial: Scan := Scan(map[], "", [], false)

  /** "Save the current file if there is one". */
  function Save(st: Scan): map<string, string> {
    if st.current != "" then st.files[st.current := Join(st.content)] else st.files
  }

  /** One iteration of the loop. */
  function Step(st: Scan, line: string): Scan {
    match FileMarker(line)
    case Some(group) =>
      Scan(Save(st), Trim(group), if st.current != "" then [] else st.content, false)
    case None =>
      if st.current == "" then st
      else if IsFenceLine(line) then st.(inCode := !st.inCode)
      else if st.inCode then st.(content := st.content + [line])
      else st
  }

  /** The loop variables after the given lines. */
  function ScanLines(lines: seq<string>): Scan
    decreases |lines|
  {
    if |lines| == 0 then Initial
    else Step(ScanLines(lines[..|lines| - 1]), lines[|lines| - 1])
  }

  /** `parseCodeFiles(codeText)`. */
  function ParseCodeFiles(codeText: string): map<string, string> {
    Save(ScanLines(Lines(codeText)))
  }

  // ---------------------------------------------------------------------------
  // The same, block by block
  // ---------------------------------------------------------------------------

  /**
    After `body`, the scan is inside a fence: an odd number of its lines are fence
    lines.  The fence test is a parameter so that the facts below hold for any test;
    the scan uses `IsFenceLine`.
   */
  function InFence(body: seq<string>, isFence: string -> bool): bool
    decreases |body|
  {
    if |body| == 0 then false
    else InFence(body[..|body| - 1], isFence) != isFence(body[|body| - 1])
  }

  /** The lines of a block body that lie inside a fence and are not fence lines themselves. */
  function Captured(body: seq<string>, isFence: string -> bool): seq<string>
    decreases |body|
  {
    if |body| == 0 then []
    else
      var i := |body| - 1;
      Captured(body[..i], isFence) + (if !isFence(body[i]) && InFence(body[..i], isFence) then [body[i]] else [])
  }

  /** One more line: the fence state flips on a fence line, and a line inside a fence is kept. */
  lemma CapturedSnoc(body: seq<string>, x: string, isFence: string -> bool)
    ensures InFence(body + [x], isFence) == (InFence(body, isFence) != isFence(x))
    ensures Captured(body + [x], isFence) == Captured(body, isFence) + (if !isFence(x) && InFence(body, isFence) then [x] else [])
  {
    assert (body + [x])[..|body|] == body;
  }

  /** A block stores the joined captured lines under its name, unless the name is empty. */
  function BlockContent(marker: string, body: seq<string>): Option<string> {
    if MarkerName(marker) != "" then Some(Join(Captured(body, IsFenceLine))) else None
  }

  function FileBlocks(lines: seq<string>): map<string, string> {
    Assemble(lines, IsMarkerLine, MarkerName, BlockContent)
  }

  /**
    The loop invariant of `parseCodeFiles`, in terms of the blocks: after `lines`, the
    saved files are the blocks before the last marker, the current name is that
    marker's, and the content and fence flag are what its body has produced so far.
   */
  ghost predicate ScanAgrees(lines: seq<string>, st: Scan) {
    match LastMarker(lines, IsMarkerLine)
    case None => st == Initial
    case Some(j) =>
      && st.files == FileBlocks(lines[..j])
      && st.current == MarkerName(lines[j])
      && (if st.current != ""
          then st.content == Captured(lines[j + 1..], IsFenceLine) && st.inCode == InFence(lines[j + 1..], IsFenceLine)
          else st.content == [] && !st.inCode)
  }

  /** Saving the current file at the end gives every block's entry. */
  lemma AgreesSave(lines: seq<string>, st: Scan)
    requires ScanAgrees(lines, st)
    ensures Save(st) == FileBlocks(lines)
  {
    match LastMarker(lines, IsMarkerLine)
    case None =>
    case Some(j) =>
      assert lines[j + 1..|lines|] == lines[j + 1..];
  }

  /** Without a current file, nothing has been collected. */
  lemma AgreesIdle(lines: seq<string>, st: Scan)
    requires ScanAgrees(lines, st)
    ensures st.current == "" ==> st.content == [] && !st.inCode
  {
  }

  lemma ScanLinesSnoc(prev: seq<string>, x: string)
    ensures ScanLines(prev + [x]) == Step(ScanLines(prev), x)
  {
    assert (prev + [x])[..|prev|] == prev;
  }

  /** A marker line saves the current file and starts the named one. */
  lemma StepMarker(st: Scan, x: string)
    requires IsMarkerLine(x)
    ensures Step(st, x) == Scan(Save(st), MarkerName(x), if st.current != "" then [] else st.content, false)
  {
  }

  /** A line that is not a marker only touches the current file's content and fence flag. */
  lemma StepOther(st: Scan, x: string)
    requires !IsMarkerLine(x)
    ensures st.current == "" ==> Step(st, x) == st
    ensures st.current != "" ==> Step(st, x) == st.(content := st.content + (if !IsFenceLine(x) && st.inCode then [x] else []),
                                                 inCode := st.inCode != IsFenceLine(x))
  {
  }

  /** A marker line saves the current file and opens a new, empty one. */
  lemma ScanMarkerStep(prev: seq<string>, x: string)
    requires ScanAgrees(prev, ScanLines(prev))
    requires IsMarkerLine(x)
    ensures ScanAgrees(prev + [x], ScanLines(prev + [x]))
  {
    var st0 := ScanLines(prev);
    AgreesSave(prev, st0);
    AgreesIdle(prev, st0);
    ScanLinesSnoc(prev, x);
    StepMarker(st0, x);
    assert ScanLines(prev + [x]) == Scan(FileBlocks(prev), MarkerName(x), [], false);
    LastMarkerSnocMarker(prev, x, IsMarkerLine);
    assert Captured([], IsFenceLine) == [] && !InFence([], IsFenceLine);
  }

  /** Any other line changes at most the current file's content and fence flag. */
  lemma ScanOtherStep(prev: seq<string>, x: string)
    requires ScanAgrees(prev, ScanLines(prev))
    requires !IsMarkerLine(x)
    ensures ScanAgrees(prev + [x], ScanLines(prev + [x]))
  {
    var st0 := ScanLines(prev);
    ScanLinesSnoc(prev, x);
    match LastMarker(prev, IsMarkerLine)
    case None =>
      OtherBeforeMarkers(prev, x, st0);
    case Some(j) =>
      OtherInBlock(prev, x, st0, j);
  }

  /** Before the first marker, a line changes nothing. */
  lemma OtherBeforeMarkers(prev: seq<string>, x: string, st: Scan)
    requires LastMarker(prev, IsMarkerLine).None? && ScanAgrees(prev, st)
    requires !IsMarkerLine(x)
    ensures ScanAgrees(prev + [x], Step(st, x))
  {
    StepOther(st, x);
    LastMarkerSnocNone(prev, x, IsMarkerLine);
  }

  /** After a marker, a line extends the body of the last block. */
  lemma OtherInBlock(prev: seq<string>, x: string, st: Scan, j: nat)
    requires LastMarker(prev, IsMarkerLine) == Some(j) && ScanAgrees(prev, st)
    requires !IsMarkerLine(x)
    ensures ScanAgrees(prev + [x], Step(st, x))
  {
    StepOther(st, x);
    LastMarkerSnocOther(prev, x, IsMarkerLine, j);
    CapturedSnoc(prev[j + 1..], x, IsFenceLine);
  }

  lemma {:induction false} ScanInvariant(lines: seq<string>)
    ensures ScanAgrees(lines, ScanLines(lines))
    decreases |lines|
  {
    if |lines| > 0 {
      var n := |lines| - 1;
      var prev := lines[..n];
      var x := lines[n];
      assert lines == prev + [x];
      ScanInvariant(prev);
      if IsMarkerLine(x) {
        ScanMarkerStep(prev, x);
      } else {
        ScanOtherStep(prev, x);
      }
    }
  }

  /** `parseCodeFiles` is the block-wise definition applied to the reply's lines. */
  lemma ParseCodeFilesIsBlocks(codeText: string)
    ensures ParseCodeFiles(codeText) == FileBlocks(Lines(codeText))
  {
    ScanInvariant(Lines(codeText));
    AgreesSave(Lines(codeText), ScanLines(Lines(codeText)));
  }

  // ---------------------------------------------------------------------------
  // What parseCodeFiles returns
  // ---------------------------------------------------------------------------

  /** Line `j` is a `FILE:` marker whose name is `k`. */
  predicate NamesFile(lines: seq<string>, j: int, k: string) {
    0 <= j < |lines| && IsMarkerLine(lines[j]) && MarkerName(lines[j]) == k
  }

  /** The lines after marker `j` up to the next marker or the end: the block `j` opens. */
  function FileBody(lines: seq<string>, j: nat): seq<string>
    requires j < |lines|
  {
    lines[j + 1..NextMarker(lines, IsMarkerLine, j + 1)]
  }

  /**
    The paths in the result are exactly the non-empty names of the `FILE:` lines: a
    marker whose name trims to nothing opens no file.
   */
  lemma ParseCodeFilesKeys(codeText: string, k: string)
    ensures k in ParseCodeFiles(codeText) <==> k != "" && exists j :: NamesFile(Lines(codeText), j, k)
  {
    var lines := Lines(codeText);
    ParseCodeFilesIsBlocks(codeText);
    AssembleKeysByMarker(lines, IsMarkerLine, MarkerName, BlockContent, k);
    if k in ParseCodeFiles(codeText) {
      var j :| 0 <= j < |lines| && IsMarkerLine(lines[j]) && MarkerName(lines[j]) == k
               && BlockContent(lines[j], FileBody(lines, j)).Some?;
      assert NamesFile(lines, j, k);
    }
    if k != "" && exists j :: NamesFile(lines, j, k) {
      var j :| NamesFile(lines, j, k);
      assert BlockContent(lines[j], FileBody(lines, j)).Some?;
    }
  }

  /**
    A path holds what its last `FILE:` line's block captured: the lines inside fences
    between that marker and the next marker (or the end), joined with newlines.  A
    `FILE:` line ends the block even inside an open fence, and the fence state starts
    afresh after it.
   */
  lemma ParseCodeFilesValue(codeText: string, k: string)
    requires k in ParseCodeFiles(codeText)
    ensures var lines := Lines(codeText);
            exists j :: NamesFile(lines, j, k)
                        && ParseCodeFiles(codeText)[k] == Join(Captured(FileBody(lines, j), IsFenceLine))
                        && forall j2 :: j < j2 < |lines| ==> !NamesFile(lines, j2, k)
  {
    ParseCodeFilesIsBlocks(codeText);
    var j := FileBlocksValue(Lines(codeText), k);
  }

  lemma FileBlocksValue(lines: seq<string>, k: string) returns (j: nat)
    requires k in FileBlocks(lines)
    ensures NamesFile(lines, j, k)
    ensures FileBlocks(lines)[k] == Join(Captured(FileBody(lines, j), IsFenceLine))
    ensures forall j2 :: j < j2 < |lines| ==> !NamesFile(lines, j2, k)
  {
    j := AssembleValueByMarker(lines, IsMarkerLine, MarkerName, BlockContent, k);
    BlockContentNone(lines[j], FileBody(lines, j));
    forall j2 | j < j2 < |lines|
      ensures !NamesFile(lines, j2, k)
    {
      BlockContentNone(lines[j2], FileBody(lines, j2));
    }
  }

  lemma BlockContentNone(marker: string, body: seq<string>)
    ensures BlockContent(marker, body).None? <==> MarkerName(marker) == ""
  {
  }

  /** Lines before the first `FILE:` line make no difference. */
  lemma ParseCodeFilesPreamble(preamble: string, text: string)
    requires forall i :: 0 <= i < |Lines(preamble)| ==> !IsMarkerLine(Lines(preamble)[i])
    ensures ParseCodeFiles(preamble + [NL] + text) == ParseCodeFiles(text)
  {
    LinesConcat(preamble, text);
    ParseCodeFilesIsBlocks(preamble + [NL] + text);
    ParseCodeFilesIsBlocks(text);
    AssemblePreamble(Lines(preamble), Lines(text), IsMarkerLine, MarkerName, BlockContent);
  }

  /**
    What a block keeps: a subsequence of its body with no fence line in it, and nothing
    at all when the body holds no fence line.
   */
  lemma {:induction false} CapturedLines(body: seq<string>, isFence: string -> bool)
    ensures |Captured(body, isFence)| <= |body|
    ensures forall m :: 0 <= m < |Captured(body, isFence)| ==>
              !isFence(Captured(body, isFence)[m]) && Captured(body, isFence)[m] in body
    decreases |body|
  {
    if |body| > 0 {
      var n := |body| - 1;
      CapturedLines(body[..n], isFence);
    }
  }

  /** A body without fence lines yields nothing. */
  lemma {:induction false} CapturedNoFence(body: seq<string>, isFence: string -> bool)
    requires forall i :: 0 <= i < |body| ==> !isFence(body[i])
    ensures Captured(body, isFence) == []
    decreases |body|
  {
    if |body| > 0 {
      var n := |body| - 1;
      assert forall i :: 0 <= i < n ==> !isFence(body[..n][i]);
      CapturedNoFence(body[..n], isFence);
      NoFenceNotInside(body[..n], isFence);
    }
  }

  /** With no fence line, the scan never enters a fence. */
  lemma {:induction false} NoFenceNotInside(body: seq<string>, isFence: string -> bool)
    requires forall i :: 0 <= i < |body| ==> !isFence(body[i])
    ensures !InFence(body, isFence)
    decreases |body|
  {
    if |body| > 0 {
      NoFenceNotInside(body[..|body| - 1], isFence);
    }
  }

  /** After an opening fence, every following non-fence line is kept. */
  lemma {:induction false} CapturedAfterOpen(open: string, xs: seq<string>, isFence: string -> bool)
    requires isFence(open)
    requires forall i :: 0 <= i < |xs| ==> !isFence(xs[i])
    ensures InFence([open] + xs, isFence)
    ensures Captured([open] + xs, isFence) == xs
    decreases |xs|
  {
    if |xs| == 0 {
      CapturedSnoc([], open, isFence);
      assert [open] + xs == [] + [open];
    } else {
      var n := |xs| - 1;
      CapturedAfterOpen(open, xs[..n], isFence);
      CapturedSnoc([open] + xs[..n], xs[n], isFence);
      assert [open] + xs == ([open] + xs[..n]) + [xs[n]];
      assert xs == xs[..n] + [xs[n]];
    }
  }

  lemma FenceIsFenceLine()
    ensures IsFenceLine(Fence)
  {
    assert !IsSpace(Fence[0]) && !IsSpace(Fence[|Fence| - 1]);
    TrimFixedPoint(Fence);
  }

  /** A block whose body is one fenced run keeps exactly the run. */
  lemma CapturedFenced(xs: seq<string>)
    requires forall i :: 0 <= i < |xs| ==> !IsFenceLine(xs[i])
    ensures Captured([Fence] + xs + [Fence], IsFenceLine) == xs
  {
    FenceIsFenceLine();
    CapturedAfterOpen(Fence, xs, IsFenceLine);
    CapturedSnoc([Fence] + xs, Fence, IsFenceLine);
  }

  // ---------------------------------------------------------------------------
  // Round trip: files written out as `FILE:` blocks and parsed back
  // ---------------------------------------------------------------------------

  datatype FileEntry = FileEntry(path: string, content: string)

  /** The layout the coder prompt asks for: a `FILE: <path>` line, then the content in a fence. */
  function EntryLines(e: FileEntry): seq<string> {
    [MarkerLine(e.path)] + FencedBody(e.content)
  }

  function FencedBody(content: string): seq<string> {
    [Fence] + Lines(content) + [Fence]
  }

  function MarkerLine(path: string): string {
    "FILE: " + path
  }

  function SerializeLines(es: seq<FileEntry>): seq<string>
    decreases |es|
  {
    if |es| == 0 then [] else SerializeLines(es[..|es| - 1]) + EntryLines(es[|es| - 1])
  }

  function Serialize(es: seq<FileEntry>): string {
    Join(SerializeLines(es))
  }

  /** The path-to-content map the entries describe, a later entry overriding an earlier one. */
  function ToMap(es: seq<FileEntry>): map<string, string>
    decreases |es|
  {
    if |es| == 0 then map[] else ToMap(es[..|es| - 1])[es[|es| - 1].path := es[|es| - 1].content]
  }

  /** A path `parseCodeFiles` reads back as itself: non-empty, trimmed, on one line. */
  predicate IsPlainPath(p: string) {
    p != "" && IsTrimmed(p) && forall i :: 0 <= i < |p| ==> !IsLineTerminator(p[i])
  }

  /** No line of the content could be taken for a marker or a fence. */
  predicate IsPlainContent(content: string) {
    forall i :: 0 <= i < |Lines(content)| ==> !IsMarkerLine(Lines(content)[i]) && !IsFenceLine(Lines(content)[i])
  }

  predicate WellFormed(es: seq<FileEntry>) {
    forall i :: 0 <= i < |es| ==> IsPlainPath(es[i].path) && IsPlainContent(es[i].content)
  }

  /** `FILE: <path>` is a marker naming the path. */
  lemma MarkerLineNames(p: string)
    requires IsPlainPath(p)
    ensures IsMarkerLine(MarkerLine(p)) && MarkerName(MarkerLine(p)) == p
  {
    var line := MarkerLine(p);
    assert line[..|FileTag|] == FileTag;
    var rest := line[|FileTag|..];
    assert rest == [' '] + p;
    assert rest[1..] == p;
    assert TrimStart(p) == p;
    assert TrimStart(rest) == p;
    assert SpaceRun(rest) == 1;
    assert FileMarker(line) == Some(p);
    TrimFixedPoint(p);
  }

  lemma FenceNotMarker()
    ensures !IsMarkerLine(Fence)
  {
    assert !StartsWith(Fence, FileTag);
  }

  /** The body of an entry's block: no marker in it. */
  lemma EntryBody(e: FileEntry)
    requires IsPlainContent(e.content)
    ensures forall i :: 0 <= i < |FencedBody(e.content)| ==> !IsMarkerLine(FencedBody(e.content)[i])
  {
    FenceNotMarker();
    var body := FencedBody(e.content);
    forall i | 0 <= i < |body|
      ensures !IsMarkerLine(body[i])
    {
      if 0 < i < |body| - 1 {
        assert body[i] == Lines(e.content)[i - 1];
      }
    }
  }

  /** An entry's block stores its content under its path. */
  lemma EntryBlock(pre: seq<string>, e: FileEntry)
    requires IsPlainPath(e.path) && IsPlainContent(e.content)
    ensures FileBlocks(pre + EntryLines(e)) == FileBlocks(pre)[e.path := e.content]
  {
    MarkerLineNames(e.path);
    EntryBody(e);
    EntryContent(e);
    LastBlock(pre, MarkerLine(e.path), FencedBody(e.content), e.content);
  }

  lemma LastBlock(pre: seq<string>, marker: string, body: seq<string>, content: string)
    requires IsMarkerLine(marker)
    requires forall i :: 0 <= i < |body| ==> !IsMarkerLine(body[i])
    requires BlockContent(marker, body) == Some(content)
    ensures FileBlocks(pre + ([marker] + body)) == FileBlocks(pre)[MarkerName(marker) := content]
  {
    AssembleLastBlock(pre, marker, body, IsMarkerLine, MarkerName, BlockContent);
  }

  lemma EntryContent(e: FileEntry)
    requires IsPlainPath(e.path) && IsPlainContent(e.content)
    ensures BlockContent(MarkerLine(e.path), FencedBody(e.content)) == Some(e.content)
  {
    MarkerLineNames(e.path);
    CapturedFenced(Lines(e.content));
    JoinLines(e.content);
  }

  /** The entries' blocks give their map. */
  lemma {:induction false} SerializeBlocks(es: seq<FileEntry>)
    requires WellFormed(es)
    ensures FileBlocks(SerializeLines(es)) == ToMap(es)
    decreases |es|
  {
    if |es| > 0 {
      var n := |es| - 1;
      assert WellFormed(es[..n]);
      SerializeBlocks(es[..n]);
      assert IsPlainPath(es[n].path) && IsPlainContent(es[n].content);
      EntryBlock(SerializeLines(es[..n]), es[n]);
    }
  }

  lemma {:induction false} SerializeNoNewlines(es: seq<FileEntry>)
    requires WellFormed(es)
    ensures NoNewlines(SerializeLines(es))
    decreases |es|
  {
    if |es| > 0 {
      var n := |es| - 1;
      assert WellFormed(es[..n]);
      SerializeNoNewlines(es[..n]);
      var p := es[n].path;
      assert IsPlainPath(p);
      assert NL !in MarkerLine(p) by {
        forall i | 0 <= i < |MarkerLine(p)|
          ensures MarkerLine(p)[i] != NL
        {
          if i >= 6 {
            assert MarkerLine(p)[i] == p[i - 6];
          }
        }
      }
      var ls := SerializeLines(es);
      var pre := SerializeLines(es[..n]);
      var en := EntryLines(es[n]);
      assert ls == pre + en;
      forall i | 0 <= i < |ls|
        ensures NL !in ls[i]
      {
        if i >= |pre| {
          assert ls[i] == en[i - |pre|];
        }
      }
    }
  }

  /**
    Writing well-formed entries out as `FILE:` blocks and parsing the text gives back
    their map: later entries override earlier ones with the same path.
   */
  lemma ParseCodeFilesRoundTrip(es: seq<FileEntry>)
    requires WellFormed(es)
    ensures ParseCodeFiles(Serialize(es)) == ToMap(es)
  {
    ParseCodeFilesIsBlocks(Serialize(es));
    if |es| == 0 {
      assert Lines(Serialize(es)) == [""];
      assert !StartsWith("", FileTag);
      assert LastMarker([""], IsMarkerLine).None?;
    } else {
      assert |SerializeLines(es)| >= 1;
      SerializeNoNewlines(es);
      LinesJoin(SerializeLines(es));
      SerializeBlocks(es);
    }
  }

  /** Two files, each in its own fenced block: the reply with these eight lines. */
  lemma ParseCodeFilesExample()
    ensures ParseCodeFiles(Join(["FILE: a.txt", "```", "hello", "```", "FILE: b.txt", "```", "world", "```"]))
            == map["a.txt" := "hello", "b.txt" := "world"]
  {
    var es := [FileEntry("a.txt", "hello"), FileEntry("b.txt", "world")];
    ExampleRoundTrip(es);
    ExampleLines(es);
    ExampleMap(es);
    var ls := SerializeLines(es);
    assert ls == ["FILE: a.txt", "```", "hello", "```", "FILE: b.txt", "```", "world", "```"];
    assert ParseCodeFiles(Join(ls)) == ToMap(es);
  }

  lemma ExampleRoundTrip(es: seq<FileEntry>)
    requires es == [FileEntry("a.txt", "hello"), FileEntry("b.txt", "world")]
    ensures ParseCodeFiles(Join(SerializeLines(es))) == ToMap(es)
  {
    ExampleWellFormed(es);
    ParseCodeFilesRoundTrip(es);
  }

  lemma ExampleMap(es: seq<FileEntry>)
    requires es == [FileEntry("a.txt", "hello"), FileEntry("b.txt", "world")]
    ensures ToMap(es) == map["a.txt" := "hello", "b.txt" := "world"]
  {
    assert es[..1] == [es[0]] && es[..1][..0] == [];
    assert ToMap(es[..1]) == map["a.txt" := "hello"];
  }

  lemma ExampleWellFormed(es: seq<FileEntry>)
    requires es == [FileEntry("a.txt", "hello"), FileEntry("b.txt", "world")]
    ensures WellFormed(es)
  {
    PlainPathExample("a.txt");
    PlainPathExample("b.txt");
    PlainContentExample("hello");
    PlainContentExample("world");
  }

  lemma ExampleLines(es: seq<FileEntry>)
    requires es == [FileEntry("a.txt", "hello"), FileEntry("b.txt", "world")]
    ensures SerializeLines(es) == ["FILE: a.txt", "```", "hello", "```", "FILE: b.txt", "```", "world", "```"]
  {
    PlainContentExample("hello");
    PlainContentExample("world");
    TwoEntries(es[0], es[1]);
    assert es == [es[0], es[1]];
    assert MarkerLine("a.txt") == "FILE: a.txt";
    assert MarkerLine("b.txt") == "FILE: b.txt";
  }

  lemma TwoEntries(e0: FileEntry, e1: FileEntry)
    requires Lines(e0.content) == [e0.content] && Lines(e1.content) == [e1.content]
    ensures SerializeLines([e0, e1])
            == [MarkerLine(e0.path), Fence, e0.content, Fence, MarkerLine(e1.path), Fence, e1.content, Fence]
  {
    assert [e0, e1][..1] == [e0] && [e0][..0] == [];
    assert EntryLines(e0) == [MarkerLine(e0.path), Fence, e0.content, Fence];
    assert EntryLines(e1) == [MarkerLine(e1.path), Fence, e1.content, Fence];
    assert SerializeLines([e0]) == EntryLines(e0);
  }

  /** A one-line path with no white space at either end is plain. */
  lemma PlainPathExample(p: string)
    requires |p| > 0 && !IsSpace(p[0]) && !IsSpace(p[|p| - 1])
    requires NL !in p && '\r' !in p
    ensures IsPlainPath(p)
  {
  }

  /** A one-line content that starts with a lower-case letter and ends in no white space is plain. */
  lemma PlainContentExample(c: string)
    requires |c| > 0 && 'a' <= c[0] <= 'z' && !IsSpace(c[|c| - 1])
    requires NL !in c
    ensures IsPlainContent(c) && Lines(c) == [c]
  {
    LinesSingle(c);
    assert !IsMarkerLine(c) by {
      assert !StartsWith(c, FileTag) by {
        if |c| >= |FileTag| {
          assert c[..|FileTag|][0] != FileTag[0];
        }
      }
    }
    TrimFixedPoint(c);
    assert !StartsWith(c, Fence) by {
      if |c| >= |Fence| {
        assert c[..|Fence|][0] != Fence[0];
      }
    }
  }
}
