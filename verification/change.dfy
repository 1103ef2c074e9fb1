/**
  `getChange` of backend/diff.js: one change instruction (`file`, `action`, `target`,
  `replacement`) applied to the text of a file.

  The file's text is read from a container in the code; here it is a parameter.  The
  four supported actions are `replace`, `append`, `prepend` and `delete`; a `replace` or
  `delete` whose target does not occur leaves the file alone and the code returns `null`,
  and any other action throws.
 */
module Change {
  import opened Optional
  import opened Text

  /** A change instruction as the revise prompt asks the model to write it. */
  datatype Instruction = Instruction(file: string, action: string, target: string, replacement: string)

  /** What `getChange` ends with: the new text, `null`, or the `Unsupported action` error. */
  datatype Outcome =
    | Modified(content: string)
    | NotModified
    | UnsupportedAction(action: string)

  const ReplaceAction := "replace"
  const AppendAction := "append"
  const PrependAction := "prepend"
  const DeleteAction := "delete"

  predicate IsSupported(action: string) {
    action == ReplaceAction || action == AppendAction || action == PrependAction || action == DeleteAction
  }

  /** The actions that need their target to be present. */
  predicate NeedsTarget(action: string) {
    action == ReplaceAction || action == DeleteAction
  }

  /**
    `getChange(container, change)` on a file whose text is `content`.  Only a missing
    target leaves the file unmodified, and only an unknown action is an error.
   */
  function GetChange(content: string, change: Instruction): (r: Outcome)
    ensures r.UnsupportedAction? <==> !IsSupported(change.action)
    ensures r.UnsupportedAction? ==> r.action == change.action
    ensures r.NotModified? <==> NeedsTarget(change.action) && !Contains(content, change.target)
  {
    if change.action == ReplaceAction then
      if Contains(content, change.target) then Modified(ReplaceFirst(content, change.target, change.replacement))
      else NotModified
    else if change.action == AppendAction then
      Modified(content + "\n" + change.replacement)
    else if change.action == PrependAction then
      Modified(change.replacement + "\n" + content)
    else if change.action == DeleteAction then
      if Contains(content, change.target) then Modified(ReplaceFirst(content, change.target, ""))
      else NotModified
    else
      UnsupportedAction(change.action)
  }

  /**
    `replace` rewrites the first occurrence of the target and nothing else: the text
    before it, and everything after it, is kept.
   */
  lemma ReplaceRewritesFirstOccurrence(content: string, change: Instruction, i: nat)
    requires change.action == ReplaceAction
    requires IsFirstOccurrence(content, change.target, i)
    ensures GetChange(content, change)
            == Modified(content[..i] + change.replacement + content[i + |change.target|..])
    ensures |GetChange(content, change).content| == |content| - |change.target| + |change.replacement|
  {
    assert Contains(content, change.target);
  }

  /** Later occurrences of the target survive a `replace`, shifted by the change in length. */
  lemma ReplaceKeepsLaterOccurrences(content: string, change: Instruction, i: nat, j: nat)
    requires change.action == ReplaceAction
    requires IsFirstOccurrence(content, change.target, i)
    requires i + |change.target| <= j && OccursAt(content, change.target, j)
    ensures OccursAt(GetChange(content, change).content, change.target, j - |change.target| + |change.replacement|)
  {
    ReplaceRewritesFirstOccurrence(content, change, i);
    SpliceKeepsLater(content, change.target, change.replacement, i, j);
  }

  lemma SpliceKeepsLater(s: string, t: string, rep: string, i: nat, j: nat)
    requires i + |t| <= j && OccursAt(s, t, j)
    ensures OccursAt(s[..i] + rep + s[i + |t|..], t, j - |t| + |rep|)
  {
    var tail := s[i + |t|..];
    var head := s[..i] + rep;
    var k := j - |t| + |rep|;
    var d := j - (i + |t|);
    assert |head| + d == k;
    assert tail[d..d + |t|] == s[j..j + |t|];
    assert (head + tail)[k..k + |t|] == tail[d..d + |t|];
  }

  /** `delete` removes exactly the first occurrence of the target. */
  lemma DeleteRemovesFirstOccurrence(content: string, change: Instruction, i: nat)
    requires change.action == DeleteAction
    requires IsFirstOccurrence(content, change.target, i)
    ensures GetChange(content, change) == Modified(content[..i] + content[i + |change.target|..])
    ensures |GetChange(content, change).content| == |content| - |change.target|
  {
    assert Contains(content, change.target);
    assert content[..i] + "" == content[..i];
  }

  /** Whenever the target is present, `delete` shortens the file by the target's length. */
  lemma DeleteLength(content: string, change: Instruction)
    requires change.action == DeleteAction && Contains(content, change.target)
    ensures GetChange(content, change).Modified?
    ensures |GetChange(content, change).content| == |content| - |change.target|
  {
    var i := IndexOf(content, change.target).value;
    DeleteRemovesFirstOccurrence(content, change, i);
  }

  /** `append` adds a newline and the replacement after the whole text. */
  lemma AppendKeepsContentAsPrefix(content: string, change: Instruction)
    requires change.action == AppendAction
    ensures GetChange(content, change).Modified?
    ensures var r := GetChange(content, change).content;
            && |r| == |content| + 1 + |change.replacement|
            && r[..|content|] == content
            && r[|content|] == '\n'
            && r[|content| + 1..] == change.replacement
  {
  }

  /** `prepend` adds the replacement and a newline before the whole text. */
  lemma PrependKeepsContentAsSuffix(content: string, change: Instruction)
    requires change.action == PrependAction
    ensures GetChange(content, change).Modified?
    ensures var r := GetChange(content, change).content;
            && |r| == |change.replacement| + 1 + |content|
            && r[..|change.replacement|] == change.replacement
            && r[|change.replacement|] == '\n'
            && r[|change.replacement| + 1..] == content
  {
  }

  /**
    `delete` undoes `append`: deleting the appended newline and replacement gives the
    file back, provided they do not also occur earlier in the appended text.
   */
  lemma AppendThenDelete(content: string, replacement: string, file: string)
    requires IsFirstOccurrence(content + "\n" + replacement, "\n" + replacement, |content|)
    ensures var appended := GetChange(content, Instruction(file, AppendAction, "", replacement)).content;
            GetChange(appended, Instruction(file, DeleteAction, "\n" + replacement, "")) == Modified(content)
  {
    var appended := content + "\n" + replacement;
    var t := "\n" + replacement;
    assert appended[|content|..|content| + |t|] == t;
    assert OccursAt(appended, t, |content|);
    DeleteRemovesFirstOccurrence(appended, Instruction(file, DeleteAction, t, ""), |content|);
    assert appended[..|content|] == content;
  }
}
