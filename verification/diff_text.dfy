/**
  The two diff readers of backend/utils.js.

  `parseDiffResponse` cuts a reply into per-file diffs: after `FILE: <name>`, the lines
  that follow a `DIFF:` line are that file's diff.  Every line is trimmed before it is
  looked at.  `extractNewFileContent` rebuilds a new file from the added (`+`) lines of
  a diff.

  As for `parseCodeFiles`, the line-by-line scan is proved equal to a block-wise
  definition (`DiffBlocks`, built on `Blocks.Assemble`).
 */
module DiffText {
  import opened Optional
  import opened Text
  import opened Blocks

  // ---------------------------------------------------------------------------
  // parseDiffResponse, line by line
  // ---------------------------------------------------------------------------

  const HeaderTag: string := "FILE: "
  const DiffTag: string := "DIFF:"

  /** `line.startsWith("FILE: ")`, asked of a trimmed line. */
  predicate IsHeader(line: string) {
    StartsWith(line, HeaderTag)
  }

  /** `line.substring(6).trim()` for a header; empty for any other line. */
  function HeaderName(line: string): string {
    if IsHeader(line) then Trim(line[|HeaderTag|..]) else ""
  }

  /** `lines[i].trim()` for every line. */
  function TrimLines(ls: seq<string>): seq<string> {
    seq(|ls|, i requires 0 <= i < |ls| => Trim(ls[i]))
  }

  /**
    The loop variables of `parseDiffResponse`.  `current` is the current file name, with
    `""` standing for `null`: the code only ever tests its truth.
   */
  datatype DiffScan = DiffScan(diffs: map<string, string>, current: string, diff: seq<string>, collecting: bool)

  const Start: DiffScan := DiffScan(map[], "", [], false)

  /** "Save the current file's diff if there is a file and the diff is not empty". */
  function Flush(st: DiffScan): map<string, string> {
    if st.current != "" && |st.diff| > 0 then st.diffs[st.current := Join(st.diff)] else st.diffs
  }

  /** One iteration of the loop, on the trimmed line. */
  function Step(st: DiffScan, line: string): DiffScan {
    if IsHeader(line) then DiffScan(Flush(st), HeaderName(line), [], false)
    else if line == DiffTag then st.(collecting := true)
    else if st.collecting && st.current != "" then st.(diff := st.diff + [line])
    else st
  }

  /** The loop variables after the given (trimmed) lines. */
  function ScanLines(lines: seq<string>): DiffScan
    decreases |lines|
  {
    if |lines| == 0 then Start
    else Step(ScanLines(lines[..|lines| - 1]), lines[|lines| - 1])
  }

  /** `parseDiffResponse(diffText)`. */
  function ParseDiffResponse(diffText: string): map<string, string> {
    Flush(ScanLines(TrimLines(Lines(diffText))))
  }

  // ---------------------------------------------------------------------------
  // The same, block by block
  // ---------------------------------------------------------------------------

  /** Some line of `body` is `DIFF:`. */
  function Collecting(body: seq<string>): bool
    decreases |body|
  {
    if |body| == 0 then false
    else Collecting(body[..|body| - 1]) || body[|body| - 1] == DiffTag
  }

  /** The lines of a block body that come after a `DIFF:` line, other than `DIFF:` lines. */
  function Collected(body: seq<string>): seq<string>
    decreases |body|
  {
    if |body| == 0 then []
    else
      var i := |body| - 1;
      Collected(body[..i]) + (if body[i] != DiffTag && Collecting(body[..i]) then [body[i]] else [])
  }

  lemma CollectedSnoc(body: seq<string>, x: string)
    ensures Collecting(body + [x]) == (Collecting(body) || x == DiffTag)
    ensures Collected(body + [x]) == Collected(body) + (if x != DiffTag && Collecting(body) then [x] else [])
  {
    assert (body + [x])[..|body|] == body;
  }

  /** A block stores its joined collected lines, if it has a name and collected anything. */
  function DiffValue(header: string, body: seq<string>): Option<string> {
    if HeaderName(header) != "" && |Collected(body)| > 0 then Some(Join(Collected(body))) else None
  }

  function DiffBlocks(lines: seq<string>): map<string, string> {
    Assemble(lines, IsHeader, HeaderName, DiffValue)
  }

  /**
    The loop invariant of `parseDiffResponse`: the saved diffs are the blocks before the
    last header, the current name is that header's, and the flag and the collected lines
    are what its body has produced so far.  Before any header only the flag moves.
   */
  ghost predicate ScanAgrees(lines: seq<string>, st: DiffScan) {
    match LastMarker(lines, IsHeader)
    case None => st == DiffScan(map[], "", [], Collecting(lines))
    case Some(j) =>
      && st.diffs == DiffBlocks(lines[..j])
      && st.current == HeaderName(lines[j])
      && st.collecting == Collecting(lines[j + 1..])
      && st.diff == (if st.current != "" then Collected(lines[j + 1..]) else [])
  }

  /** Saving the current diff at the end gives every block's entry. */
  lemma AgreesFlush(lines: seq<string>, st: DiffScan)
    requires ScanAgrees(lines, st)
    ensures Flush(st) == DiffBlocks(lines)
  {
    match LastMarker(lines, IsHeader)
    case None =>
    case Some(j) =>
      assert lines[j + 1..|lines|] == lines[j + 1..];
  }

  lemma ScanLinesSnoc(prev: seq<string>, x: string)
    ensures ScanLines(prev + [x]) == Step(ScanLines(prev), x)
  {
    assert (prev + [x])[..|prev|] == prev;
  }

  /** A header saves the current diff and opens a new, empty one. */
  lemma ScanHeaderStep(prev: seq<string>, x: string)
    requires ScanAgrees(prev, ScanLines(prev))
    requires IsHeader(x)
    ensures ScanAgrees(prev + [x], ScanLines(prev + [x]))
  {
    var st0 := ScanLines(prev);
    AgreesFlush(prev, st0);
    ScanLinesSnoc(prev, x);
    assert ScanLines(prev + [x]) == DiffScan(DiffBlocks(prev), HeaderName(x), [], false);
    LastMarkerSnocMarker(prev, x, IsHeader);
    assert Collected([]) == [] && !Collecting([]);
  }

  /** Any other line moves at most the flag and the current diff. */
  lemma ScanOtherStep(prev: seq<string>, x: string)
    requires ScanAgrees(prev, ScanLines(prev))
    requires !IsHeader(x)
    ensures ScanAgrees(prev + [x], ScanLines(prev + [x]))
  {
    var st0 := ScanLines(prev);
    ScanLinesSnoc(prev, x);
    match LastMarker(prev, IsHeader)
    case None =>
      OtherBeforeHeaders(prev, x, st0);
    case Some(j) =>
      OtherInBlock(prev, x, st0, j);
  }

  /** Before the first header, a line can only raise the flag. */
  lemma OtherBeforeHeaders(prev: seq<string>, x: string, st: DiffScan)
    requires LastMarker(prev, IsHeader).None? && ScanAgrees(prev, st)
    requires !IsHeader(x)
    ensures ScanAgrees(prev + [x], Step(st, x))
  {
    LastMarkerSnocNone(prev, x, IsHeader);
    CollectedSnoc(prev, x);
  }

  /** After a header, a line extends the body of the last block. */
  lemma OtherInBlock(prev: seq<string>, x: string, st: DiffScan, j: nat)
    requires LastMarker(prev, IsHeader) == Some(j) && ScanAgrees(prev, st)
    requires !IsHeader(x)
    ensures ScanAgrees(prev + [x], Step(st, x))
  {
    LastMarkerSnocOther(prev, x, IsHeader, j);
    CollectedSnoc(prev[j + 1..], x);
  }

  lemma {:induction false} ScanInvariant(lines: seq<string>)
    ensures ScanAgrees(lines, ScanLines(lines))
    decreases |lines|
  {
    if |lines| > 0 {
      var n := |lines| - 1;
      var prev := lines[..n];
      var x := lines[n];
      assert lines == prev + [x];
      ScanInvariant(prev);
      if IsHeader(x) {
        ScanHeaderStep(prev, x);
      } else {
        ScanOtherStep(prev, x);
      }
    }
  }

  /** `parseDiffResponse` is the block-wise definition, on the trimmed lines. */
  lemma ParseDiffResponseIsBlocks(diffText: string)
    ensures ParseDiffResponse(diffText) == DiffBlocks(TrimLines(Lines(diffText)))
  {
    var lines := TrimLines(Lines(diffText));
    ScanInvariant(lines);
    AgreesFlush(lines, ScanLines(lines));
  }

  // ---------------------------------------------------------------------------
  // What the result holds
  // ---------------------------------------------------------------------------

  /** Every trimmed line is trimmed. */
  lemma TrimLinesTrimmed(ls: seq<string>)
    ensures forall i :: 0 <= i < |ls| ==> IsTrimmed(TrimLines(ls)[i])
  {
    forall i | 0 <= i < |ls|
      ensures IsTrimmed(TrimLines(ls)[i])
    {
      TrimSpec(ls[i]);
    }
  }

  /** A trimmed header always has a name: the line cannot end in the space after `FILE:`. */
  lemma HeaderNameNonEmpty(line: string)
    requires IsTrimmed(line) && IsHeader(line)
    ensures HeaderName(line) != ""
  {
    assert line[..|HeaderTag|] == HeaderTag;
    assert line[5] == ' ';
    var rest := line[|HeaderTag|..];
    assert |rest| > 0 && rest[|rest| - 1] == line[|line| - 1];
    TrimSpec(rest);
  }

  /** Header `j` of `lines` names file `k`. */
  predicate NamesDiff(lines: seq<string>, j: int, k: string) {
    0 <= j < |lines| && IsHeader(lines[j]) && HeaderName(lines[j]) == k
  }

  /** The lines after header `j` up to the next header or the end. */
  function DiffBody(lines: seq<string>, j: nat): seq<string>
    requires j < |lines|
  {
    lines[j + 1..NextMarker(lines, IsHeader, j + 1)]
  }

  lemma DiffValueNone(header: string, body: seq<string>)
    ensures DiffValue(header, body).None? <==> HeaderName(header) == "" || Collected(body) == []
  {
  }

  /**
    The files in the result are exactly the names of the `FILE: ` headers under which
    something was collected; a file with an empty diff is left out.
   */
  lemma ParseDiffResponseKeys(diffText: string, k: string)
    ensures var lines := TrimLines(Lines(diffText));
            k in ParseDiffResponse(diffText) <==>
            exists j :: NamesDiff(lines, j, k) && Collected(DiffBody(lines, j)) != []
  {
    ParseDiffResponseIsBlocks(diffText);
    TrimLinesTrimmed(Lines(diffText));
    DiffBlocksKeys(TrimLines(Lines(diffText)), k);
  }

  lemma DiffBlocksKeys(lines: seq<string>, k: string)
    requires forall i :: 0 <= i < |lines| ==> IsTrimmed(lines[i])
    ensures k in DiffBlocks(lines) <==> exists j :: NamesDiff(lines, j, k) && Collected(DiffBody(lines, j)) != []
  {
    AssembleKeysByMarker(lines, IsHeader, HeaderName, DiffValue, k);
    if k in DiffBlocks(lines) {
      var j :| 0 <= j < |lines| && IsHeader(lines[j]) && HeaderName(lines[j]) == k
               && DiffValue(lines[j], DiffBody(lines, j)).Some?;
      assert NamesDiff(lines, j, k);
    }
    if exists j :: NamesDiff(lines, j, k) && Collected(DiffBody(lines, j)) != [] {
      var j :| NamesDiff(lines, j, k) && Collected(DiffBody(lines, j)) != [];
      HeaderNameNonEmpty(lines[j]);
      DiffValueNone(lines[j], DiffBody(lines, j));
    }
  }

  /**
    A file holds what its last header with something collected gathered: the trimmed
    lines after the first `DIFF:` line of that block, joined with newlines.
   */
  lemma ParseDiffResponseValue(diffText: string, k: string)
    requires k in ParseDiffResponse(diffText)
    ensures var lines := TrimLines(Lines(diffText));
            exists j :: NamesDiff(lines, j, k)
                        && ParseDiffResponse(diffText)[k] == Join(Collected(DiffBody(lines, j)))
                        && Collected(DiffBody(lines, j)) != []
                        && forall j2 :: j < j2 < |lines| && NamesDiff(lines, j2, k) ==> Collected(DiffBody(lines, j2)) == []
  {
    ParseDiffResponseIsBlocks(diffText);
    var lines := TrimLines(Lines(diffText));
    TrimLinesTrimmed(Lines(diffText));
    var j := DiffBlocksValue(lines, k);
  }

  lemma DiffBlocksValue(lines: seq<string>, k: string) returns (j: nat)
    requires k in DiffBlocks(lines)
    requires forall i :: 0 <= i < |lines| ==> IsTrimmed(lines[i])
    ensures NamesDiff(lines, j, k)
    ensures DiffBlocks(lines)[k] == Join(Collected(DiffBody(lines, j))) && Collected(DiffBody(lines, j)) != []
    ensures forall j2 :: j < j2 < |lines| && NamesDiff(lines, j2, k) ==> Collected(DiffBody(lines, j2)) == []
  {
    j := AssembleValueByMarker(lines, IsHeader, HeaderName, DiffValue, k);
    forall j2 | j < j2 < |lines| && NamesDiff(lines, j2, k)
      ensures Collected(DiffBody(lines, j2)) == []
    {
      HeaderNameNonEmpty(lines[j2]);
      DiffValueNone(lines[j2], DiffBody(lines, j2));
    }
  }

  /**
    The collected lines of a block: a subsequence of its body (so trimmed, and never a
    header) with no `DIFF:` line in it.
   */
  lemma {:induction false} CollectedLines(body: seq<string>)
    ensures |Collected(body)| <= |body|
    ensures forall m :: 0 <= m < |Collected(body)| ==>
              Collected(body)[m] != DiffTag && Collected(body)[m] in body
    decreases |body|
  {
    if |body| > 0 {
      CollectedLines(body[..|body| - 1]);
    }
  }

  /** What a diff holds is trimmed, and neither a header nor `DIFF:`. */
  lemma ParseDiffResponseLines(diffText: string, j: nat)
    requires j < |TrimLines(Lines(diffText))|
    ensures var d := Collected(DiffBody(TrimLines(Lines(diffText)), j));
            forall m :: 0 <= m < |d| ==> IsTrimmed(d[m]) && !IsHeader(d[m]) && d[m] != DiffTag
  {
    var lines := TrimLines(Lines(diffText));
    var body := DiffBody(lines, j);
    TrimLinesTrimmed(Lines(diffText));
    CollectedLines(body);
    forall m | 0 <= m < |Collected(body)|
      ensures IsTrimmed(Collected(body)[m]) && !IsHeader(Collected(body)[m])
    {
      var i :| 0 <= i < |body| && body[i] == Collected(body)[m];
      assert body[i] == lines[j + 1 + i];
    }
  }

  /** The lines other than `DIFF:` lines. */
  function DropTags(ls: seq<string>): seq<string>
    decreases |ls|
  {
    if |ls| == 0 then []
    else DropTags(ls[..|ls| - 1]) + (if ls[|ls| - 1] != DiffTag then [ls[|ls| - 1]] else [])
  }

  /** Before any `DIFF:` line, nothing is collected. */
  lemma {:induction false} CollectedNoTag(body: seq<string>)
    requires forall i :: 0 <= i < |body| ==> body[i] != DiffTag
    ensures !Collecting(body) && Collected(body) == []
    decreases |body|
  {
    if |body| > 0 {
      var n := |body| - 1;
      assert forall i :: 0 <= i < n ==> body[..n][i] != DiffTag;
      CollectedNoTag(body[..n]);
    }
  }

  /** Once a `DIFF:` line has been seen, every further line other than `DIFF:` is collected. */
  lemma {:induction false} CollectedAfter(p: seq<string>, rest: seq<string>)
    requires Collecting(p)
    ensures Collecting(p + rest)
    ensures Collected(p + rest) == Collected(p) + DropTags(rest)
    decreases |rest|
  {
    if |rest| == 0 {
      assert p + rest == p;
    } else {
      var n := |rest| - 1;
      var q := p + rest[..n];
      CollectedAfter(p, rest[..n]);
      SnocAssoc(p, rest);
      CollectedSnoc(q, rest[n]);
      assert DropTags(rest) == DropTags(rest[..n]) + (if rest[n] != DiffTag then [rest[n]] else []);
    }
  }

  lemma SnocAssoc(p: seq<string>, rest: seq<string>)
    requires |rest| > 0
    ensures p + rest == (p + rest[..|rest| - 1]) + [rest[|rest| - 1]]
  {
  }

  /**
    The block-wise reading in plain terms: a block collects the lines after its first
    `DIFF:` line, leaving out `DIFF:` lines, and nothing when it has no `DIFF:` line.
   */
  lemma CollectedAfterFirstTag(pre: seq<string>, rest: seq<string>)
    requires forall i :: 0 <= i < |pre| ==> pre[i] != DiffTag
    ensures Collected(pre + ([DiffTag] + rest)) == DropTags(rest)
  {
    ConsAssoc(pre, DiffTag, rest);
    CollectedNoTag(pre);
    CollectedSnoc(pre, DiffTag);
    CollectedAfter(pre + [DiffTag], rest);
  }

  lemma ConsAssoc(pre: seq<string>, x: string, rest: seq<string>)
    ensures pre + ([x] + rest) == (pre + [x]) + rest
  {
  }

  // ---------------------------------------------------------------------------
  // Round trip: per-file diffs written out as FILE:/DIFF: blocks
  // ---------------------------------------------------------------------------

  datatype DiffEntry = DiffEntry(path: string, diff: seq<string>)

  /** The layout the revise step reads: `FILE: <path>`, `DIFF:`, then the diff's lines. */
  function EntryLines(e: DiffEntry): seq<string> {
    [HeaderLine(e.path)] + ([DiffTag] + e.diff)
  }

  function HeaderLine(path: string): string {
    HeaderTag + path
  }

  function SerializeLines(es: seq<DiffEntry>): seq<string>
    decreases |es|
  {
    if |es| == 0 then [] else SerializeLines(es[..|es| - 1]) + EntryLines(es[|es| - 1])
  }

  function Serialize(es: seq<DiffEntry>): string {
    Join(SerializeLines(es))
  }

  /** The file-to-diff map the entries describe, a later entry overriding an earlier one. */
  function ToMap(es: seq<DiffEntry>): map<string, string>
    decreases |es|
  {
    if |es| == 0 then map[] else ToMap(es[..|es| - 1])[es[|es| - 1].path := Join(es[|es| - 1].diff)]
  }

  /** A line that reads back as itself inside a diff. */
  predicate IsPlainDiffLine(line: string) {
    IsTrimmed(line) && NL !in line && !IsHeader(line) && line != DiffTag
  }

  /** A non-empty one-line trimmed path, and a non-empty diff of plain lines. */
  predicate IsPlainEntry(e: DiffEntry) {
    && e.path != "" && IsTrimmed(e.path) && NL !in e.path
    && |e.diff| > 0
    && forall i :: 0 <= i < |e.diff| ==> IsPlainDiffLine(e.diff[i])
  }

  predicate WellFormed(es: seq<DiffEntry>) {
    forall i :: 0 <= i < |es| ==> IsPlainEntry(es[i])
  }

  /** `FILE: <path>` is a trimmed header naming the path. */
  lemma HeaderLineNames(p: string)
    requires p != "" && IsTrimmed(p)
    ensures IsHeader(HeaderLine(p)) && HeaderName(HeaderLine(p)) == p && IsTrimmed(HeaderLine(p))
  {
    var line := HeaderLine(p);
    assert line[..|HeaderTag|] == HeaderTag;
    assert line[|HeaderTag|..] == p;
    TrimFixedPoint(p);
  }

  lemma DiffTagFacts()
    ensures !IsHeader(DiffTag) && IsTrimmed(DiffTag) && NL !in DiffTag
  {
    assert DiffTag[0] == 'D';
  }

  /** A plain diff reads back as itself. */
  lemma {:induction false} DropTagsPlain(ls: seq<string>)
    requires forall i :: 0 <= i < |ls| ==> ls[i] != DiffTag
    ensures DropTags(ls) == ls
    decreases |ls|
  {
    if |ls| > 0 {
      var n := |ls| - 1;
      assert forall i :: 0 <= i < n ==> ls[..n][i] != DiffTag;
      DropTagsPlain(ls[..n]);
      assert ls == ls[..n] + [ls[n]];
    }
  }

  /** An entry's block stores its diff under its path. */
  lemma EntryValue(e: DiffEntry)
    requires IsPlainEntry(e)
    ensures DiffValue(HeaderLine(e.path), [DiffTag] + e.diff) == Some(Join(e.diff))
  {
    HeaderLineNames(e.path);
    assert forall i :: 0 <= i < |e.diff| ==> e.diff[i] != DiffTag;
    CollectedAfterFirstTag([], e.diff);
    assert [] + ([DiffTag] + e.diff) == [DiffTag] + e.diff;
    DropTagsPlain(e.diff);
  }

  /** Nothing in an entry's body is a header. */
  lemma EntryBody(e: DiffEntry)
    requires IsPlainEntry(e)
    ensures forall i :: 0 <= i < |[DiffTag] + e.diff| ==> !IsHeader(([DiffTag] + e.diff)[i])
  {
    DiffTagFacts();
    forall i | 0 <= i < |[DiffTag] + e.diff|
      ensures !IsHeader(([DiffTag] + e.diff)[i])
    {
      if i > 0 {
        assert ([DiffTag] + e.diff)[i] == e.diff[i - 1];
      }
    }
  }

  lemma EntryBlock(pre: seq<string>, e: DiffEntry)
    requires IsPlainEntry(e)
    ensures DiffBlocks(pre + EntryLines(e)) == DiffBlocks(pre)[e.path := Join(e.diff)]
  {
    HeaderLineNames(e.path);
    EntryBody(e);
    EntryValue(e);
    AssembleLastBlock(pre, HeaderLine(e.path), [DiffTag] + e.diff, IsHeader, HeaderName, DiffValue);
  }

  lemma {:induction false} SerializeBlocks(es: seq<DiffEntry>)
    requires WellFormed(es)
    ensures DiffBlocks(SerializeLines(es)) == ToMap(es)
    decreases |es|
  {
    if |es| > 0 {
      var n := |es| - 1;
      assert WellFormed(es[..n]);
      SerializeBlocks(es[..n]);
      assert IsPlainEntry(es[n]);
      EntryBlock(SerializeLines(es[..n]), es[n]);
    }
  }

  /** Every line of an entry is one line, and trimmed. */
  lemma EntryLinesPlain(e: DiffEntry)
    requires IsPlainEntry(e)
    ensures forall i :: 0 <= i < |EntryLines(e)| ==> NL !in EntryLines(e)[i] && IsTrimmed(EntryLines(e)[i])
  {
    HeaderLineNames(e.path);
    DiffTagFacts();
    var h := HeaderLine(e.path);
    assert NL !in h by {
      forall i | 0 <= i < |h|
        ensures h[i] != NL
      {
        if i >= |HeaderTag| {
          assert h[i] == e.path[i - |HeaderTag|];
        }
      }
    }
    var ls := EntryLines(e);
    forall i | 0 <= i < |ls|
      ensures NL !in ls[i] && IsTrimmed(ls[i])
    {
      if i >= 2 {
        assert ls[i] == e.diff[i - 2];
      }
    }
  }

  lemma {:induction false} SerializePlain(es: seq<DiffEntry>)
    requires WellFormed(es)
    ensures forall i :: 0 <= i < |SerializeLines(es)| ==>
              NL !in SerializeLines(es)[i] && IsTrimmed(SerializeLines(es)[i])
    decreases |es|
  {
    if |es| > 0 {
      var n := |es| - 1;
      assert WellFormed(es[..n]);
      SerializePlain(es[..n]);
      assert IsPlainEntry(es[n]);
      EntryLinesPlain(es[n]);
      var ls := SerializeLines(es);
      var pre := SerializeLines(es[..n]);
      var en := EntryLines(es[n]);
      forall i | 0 <= i < |ls|
        ensures NL !in ls[i] && IsTrimmed(ls[i])
      {
        if i >= |pre| {
          assert ls[i] == en[i - |pre|];
        }
      }
    }
  }

  /** Trimming trimmed lines changes nothing. */
  lemma TrimLinesTrimmedId(ls: seq<string>)
    requires forall i :: 0 <= i < |ls| ==> IsTrimmed(ls[i])
    ensures TrimLines(ls) == ls
  {
    forall i | 0 <= i < |ls|
      ensures TrimLines(ls)[i] == ls[i]
    {
      TrimFixedPoint(ls[i]);
    }
  }

  /**
    Writing well-formed per-file diffs out as `FILE:`/`DIFF:` blocks and parsing the
    text gives back their map: later entries override earlier ones with the same path.
   */
  lemma ParseDiffResponseRoundTrip(es: seq<DiffEntry>)
    requires WellFormed(es)
    ensures ParseDiffResponse(Serialize(es)) == ToMap(es)
  {
    ParseDiffResponseIsBlocks(Serialize(es));
    if |es| == 0 {
      assert Lines(Serialize(es)) == [""];
      assert TrimLines([""]) == [""] by {
        assert Trim("") == "";
      }
      assert !IsHeader("");
      assert LastMarker([""], IsHeader).None?;
    } else {
      var ls := SerializeLines(es);
      assert |ls| >= 1;
      SerializePlain(es);
      LinesJoin(ls);
      TrimLinesTrimmedId(ls);
      SerializeBlocks(es);
    }
  }

  // ---------------------------------------------------------------------------
  // extractNewFileContent
  // ---------------------------------------------------------------------------

  /**
    The test of `extractNewFileContent`'s loop: an added line, but not a `+++` file
    header.  The third test, "not `@@ `", can never fail on a line that starts with `+`.
   */
  predicate IsAddedLine(line: string) {
    StartsWith(line, "+") && !StartsWith(line, "+++") && !StartsWith(line, "@@ ")
  }

  /** `line.substring(1)` of every added line, in order. */
  function AddedLines(lines: seq<string>): seq<string>
    decreases |lines|
  {
    if |lines| == 0 then []
    else
      var x := lines[|lines| - 1];
      AddedLines(lines[..|lines| - 1]) + (if IsAddedLine(x) then [x[1..]] else [])
  }

  /** `extractNewFileContent(diffContent)`, with `None` for `null`. */
  function ExtractNewFileContent(diffContent: string): Option<string> {
    var added := AddedLines(Lines(diffContent));
    if |added| > 0 then Some(Join(added)) else None
  }

  /** The `@@ ` test is dead: a line starting with `+` never starts with `@@ `. */
  lemma AddedTestSimplifies(line: string)
    ensures IsAddedLine(line) <==> StartsWith(line, "+") && !StartsWith(line, "+++")
  {
    if StartsWith(line, "+") {
      assert line[0] == line[..1][0] == '+';
      if |line| >= 3 {
        assert line[..3][0] == '+';
      }
    }
  }

  /** The added lines of two pieces of a diff are those of the first, then those of the second. */
  lemma {:induction false} AddedLinesConcat(a: seq<string>, b: seq<string>)
    ensures AddedLines(a + b) == AddedLines(a) + AddedLines(b)
    decreases |b|
  {
    if |b| == 0 {
      assert a + b == a;
    } else {
      var n := |b| - 1;
      AddedLinesConcat(a, b[..n]);
      assert a + b == (a + b[..n]) + [b[n]];
      assert (a + b)[..|a + b| - 1] == a + b[..n];
    }
  }

  /** No added line at all exactly when nothing is extracted. */
  lemma {:induction false} AddedLinesEmpty(lines: seq<string>)
    ensures AddedLines(lines) == [] <==> forall i :: 0 <= i < |lines| ==> !IsAddedLine(lines[i])
    decreases |lines|
  {
    if |lines| > 0 {
      var n := |lines| - 1;
      AddedLinesEmpty(lines[..n]);
      assert forall i :: 0 <= i < n ==> lines[..n][i] == lines[i];
    }
  }

  /** No line starts with `+` other than a `+++` header. */
  predicate NoAddition(lines: seq<string>) {
    forall i :: 0 <= i < |lines| ==> !(StartsWith(lines[i], "+") && !StartsWith(lines[i], "+++"))
  }

  /**
    `extractNewFileContent` gives `null` exactly when no line starts with `+` other
    than a `+++` header.
   */
  lemma ExtractNewFileContentNone(diffContent: string)
    ensures ExtractNewFileContent(diffContent).None? <==> NoAddition(Lines(diffContent))
  {
    var lines := Lines(diffContent);
    AddedLinesEmpty(lines);
    if AddedLines(lines) == [] {
      forall i | 0 <= i < |lines|
        ensures !(StartsWith(lines[i], "+") && !StartsWith(lines[i], "+++"))
      {
        AddedTestSimplifies(lines[i]);
      }
    } else {
      var i :| 0 <= i < |lines| && IsAddedLine(lines[i]);
      AddedTestSimplifies(lines[i]);
    }
  }

  /** The diff of a new file: each of its lines with a `+` in front. */
  function AddPlus(ls: seq<string>): seq<string> {
    seq(|ls|, i requires 0 <= i < |ls| => "+" + ls[i])
  }

  lemma {:induction false} AddedLinesOfPlus(ls: seq<string>)
    requires forall i :: 0 <= i < |ls| ==> !StartsWith(ls[i], "++")
    ensures AddedLines(AddPlus(ls)) == ls
    decreases |ls|
  {
    if |ls| > 0 {
      var n := |ls| - 1;
      var plus := AddPlus(ls);
      assert plus[..n] == AddPlus(ls[..n]);
      AddedLinesOfPlus(ls[..n]);
      PlusLineAdded(ls[n]);
      assert AddedLines(plus) == AddedLines(plus[..n]) + [plus[n][1..]];
      assert ls == ls[..n] + [ls[n]];
    }
  }

  /** A line with a `+` in front is an added line, unless the line starts with `++`. */
  lemma PlusLineAdded(l: string)
    requires !StartsWith(l, "++")
    ensures IsAddedLine("+" + l) && ("+" + l)[1..] == l
  {
    var x := "+" + l;
    assert x[..1] == "+";
    if |x| >= 3 {
      assert x[1..3] == l[..2];
    }
  }

  /**
    A new file whose lines do not start with `++` is rebuilt exactly from its
    all-added diff.
   */
  lemma ExtractNewFileContentRoundTrip(content: string)
    requires forall i :: 0 <= i < |Lines(content)| ==> !StartsWith(Lines(content)[i], "++")
    ensures ExtractNewFileContent(Join(AddPlus(Lines(content)))) == Some(content)
  {
    var ls := Lines(content);
    var plus := AddPlus(ls);
    assert NoNewlines(plus) by {
      forall i | 0 <= i < |plus|
        ensures NL !in plus[i]
      {
        assert forall k :: 1 <= k < |plus[i]| ==> plus[i][k] == ls[i][k - 1];
      }
    }
    LinesJoin(plus);
    AddedLinesOfPlus(ls);
    JoinLines(content);
  }
}
