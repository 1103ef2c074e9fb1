/**
  The pipeline state of backend/workflow.js and the four agents of backend/agents.js
  that change it.

  The state is a set of named channels.  Every channel's reducer is `(prev, x) => x`:
  a node returns an object of updates, and each key it returns replaces that channel's
  value outright, while channels it does not return keep theirs.  A missing channel is
  JavaScript's `undefined`.
 */
module Channels {
  import opened Optional

  /** The JavaScript values the agents store. */
  datatype Value =
    | Str(str: string)
    | Bool(flag: bool)
    | Num(num: nat)
    | NotANumber
    | List(items: seq<string>)

  /** Channel name to value; a name that is not a key is `undefined`. */
  type State = map<string, Value>

  /** What a node returns: the channels to overwrite. */
  type Update = map<string, Value>

  /** Every channel reducer is last-write-wins. */
  function Apply(s: State, u: Update): (r: State)
    ensures r.Keys == s.Keys + u.Keys
    ensures forall k :: k in u ==> r[k] == u[k]
    ensures forall k :: k in s && k !in u ==> r[k] == s[k]
  {
    s + u
  }

  /** Two updates in a row: each channel ends with the later write, if any. */
  lemma ApplyTwice(s: State, u1: Update, u2: Update)
    ensures Apply(Apply(s, u1), u2) == Apply(s, u1 + u2)
    ensures forall k :: k in u2 ==> Apply(Apply(s, u1), u2)[k] == u2[k]
    ensures forall k :: k in u1 && k !in u2 ==> Apply(Apply(s, u1), u2)[k] == u1[k]
  {
  }

  /** Writing the same update again changes nothing. */
  lemma ApplyIdempotent(s: State, u: Update)
    ensures Apply(Apply(s, u), u) == Apply(s, u)
  {
  }

  /** `state.key || []` for a transcript channel. */
  function Transcript(s: State, key: string): (r: seq<string>)
    ensures key !in s ==> r == []
    ensures key in s && s[key].List? ==> r == s[key].items
  {
    if key in s && s[key].List? then s[key].items else []
  }

  /** `state.iterations` as a number: `None` stands for `undefined` and `NaN`. */
  function Iterations(s: State): (r: Option<nat>)
    ensures r.Some? <==> "iterations" in s && s["iterations"].Num?
  {
    if "iterations" in s && s["iterations"].Num? then Some(s["iterations"].num) else None
  }

  /** `state.isCorrect` is truthy. */
  predicate IsCorrect(s: State) {
    "isCorrect" in s && s["isCorrect"] == Bool(true)
  }
}

module Agents {
  import opened Optional
  import opened Text
  import opened Channels

  /** The phrase the review prompt asks the reviewer to write when it accepts the code. */
  const AcceptPhrase := "the code is correct"

  const ReviewerTranscript := "llmAOutput"
  const CoderTranscript := "llmBOutput"

  /** `(state[key] || []).concat([entry])`. */
  function Appended(s: State, key: string, entry: string): (r: Value)
    ensures r.List? && |r.items| == |Transcript(s, key)| + 1
    ensures r.items[..|Transcript(s, key)|] == Transcript(s, key)
    ensures r.items[|Transcript(s, key)|] == entry
  {
    List(Transcript(s, key) + [entry])
  }

  /** The reviewer's verdict: the lower-cased review contains the acceptance phrase. */
  predicate Accepts(review: string) {
    Contains(ToLower(review), AcceptPhrase)
  }

  lemma AcceptPhraseIsLowerCase()
    ensures IsLowerCase(AcceptPhrase)
  {
  }

  /** The verdict is case-insensitive: it holds exactly when some slice of the review is the phrase up to case. */
  lemma AcceptsIgnoresCase(review: string)
    ensures Accepts(review) <==> exists i :: OccursIgnoringCaseAt(review, AcceptPhrase, i)
  {
    AcceptPhraseIsLowerCase();
    ContainsLowerSpec(review, AcceptPhrase);
  }

  /** Two reviews that differ only in letter case get the same verdict. */
  lemma AcceptsSameUpToCase(a: string, b: string)
    requires EqualIgnoringCase(a, b)
    ensures Accepts(a) <==> Accepts(b)
  {
    assert ToLower(a) == ToLower(b);
  }

  /** `instructAgent`, given the planner's reply. */
  function InstructAgent(s: State, reply: string): (u: Update)
    ensures u.Keys == {"instructions", ReviewerTranscript, "next"}
    ensures u["instructions"] == Str(reply) && u["next"] == Str("generate")
  {
    map["instructions" := Str(reply), ReviewerTranscript := Appended(s, ReviewerTranscript, reply), "next" := Str("generate")]
  }

  /** `generateAgent`, given the coder's reply. */
  function GenerateAgent(s: State, reply: string): (u: Update)
    ensures u.Keys == {"currentCode", CoderTranscript, "next"}
    ensures u["currentCode"] == Str(reply) && u["next"] == Str("review")
  {
    map["currentCode" := Str(reply), CoderTranscript := Appended(s, CoderTranscript, reply), "next" := Str("review")]
  }

  /** `reviewAgent`, given the reviewer's reply. */
  function ReviewAgent(s: State, reply: string): (u: Update)
    ensures u.Keys == {"isCorrect", "codeReview", ReviewerTranscript}
    ensures u["isCorrect"] == Bool(Accepts(reply)) && u["codeReview"] == Str(reply)
  {
    map["isCorrect" := Bool(Accepts(reply)), "codeReview" := Str(reply), ReviewerTranscript := Appended(s, ReviewerTranscript, reply)]
  }

  /** `state.iterations + 1`: a number goes up by one, and `undefined` or `NaN` gives `NaN`. */
  function NextIteration(s: State): (v: Value)
    ensures Iterations(s).Some? ==> v == Num(Iterations(s).value + 1)
    ensures Iterations(s).None? ==> v == NotANumber
  {
    match Iterations(s)
    case Some(n) => Num(n + 1)
    case None => NotANumber
  }

  /** `reviseAgent`, given the coder's reply. */
  function ReviseAgent(s: State, reply: string): (u: Update)
    ensures u.Keys == {"currentCode", CoderTranscript, "iterations", "next"}
    ensures u["currentCode"] == Str(reply) && u["next"] == Str("review")
  {
    map["currentCode" := Str(reply), CoderTranscript := Appended(s, CoderTranscript, reply),
        "iterations" := NextIteration(s), "next" := Str("review")]
  }

  /** The transcript after one agent has run: one more entry, the earlier ones unchanged. */
  predicate AppendedOnce(before: State, after: State, key: string, entry: string) {
    Transcript(after, key) == Transcript(before, key) + [entry]
  }

  lemma InstructAppendsToReviewerTranscript(s: State, reply: string)
    ensures AppendedOnce(s, Apply(s, InstructAgent(s, reply)), ReviewerTranscript, reply)
    ensures Transcript(Apply(s, InstructAgent(s, reply)), CoderTranscript) == Transcript(s, CoderTranscript)
  {
  }

  lemma ReviewAppendsToReviewerTranscript(s: State, reply: string)
    ensures AppendedOnce(s, Apply(s, ReviewAgent(s, reply)), ReviewerTranscript, reply)
    ensures Transcript(Apply(s, ReviewAgent(s, reply)), CoderTranscript) == Transcript(s, CoderTranscript)
  {
  }

  lemma GenerateAppendsToCoderTranscript(s: State, reply: string)
    ensures AppendedOnce(s, Apply(s, GenerateAgent(s, reply)), CoderTranscript, reply)
    ensures Transcript(Apply(s, GenerateAgent(s, reply)), ReviewerTranscript) == Transcript(s, ReviewerTranscript)
  {
  }

  lemma ReviseAppendsToCoderTranscript(s: State, reply: string)
    ensures AppendedOnce(s, Apply(s, ReviseAgent(s, reply)), CoderTranscript, reply)
    ensures Transcript(Apply(s, ReviseAgent(s, reply)), ReviewerTranscript) == Transcript(s, ReviewerTranscript)
  {
  }

  /** Every channel outside `written` is as it was: present exactly when it was, with the same value. */
  ghost predicate KeepsOthers(before: State, after: State, written: set<string>) {
    forall k :: k !in written ==> (k in after <==> k in before) && (k in before ==> after[k] == before[k])
  }

  /** `instructAgent` stores the plan, adds it to the reviewer's transcript, routes to generate, and writes nothing else. */
  lemma InstructEffect(s: State, reply: string)
    ensures var t := Apply(s, InstructAgent(s, reply));
            && t["instructions"] == Str(reply)
            && t["next"] == Str("generate")
            && AppendedOnce(s, t, ReviewerTranscript, reply)
            && KeepsOthers(s, t, {"instructions", ReviewerTranscript, "next"})
  {
  }

  /** `generateAgent` stores the code, adds it to the coder's transcript, routes to review, and writes nothing else. */
  lemma GenerateEffect(s: State, reply: string)
    ensures var t := Apply(s, GenerateAgent(s, reply));
            && t["currentCode"] == Str(reply)
            && t["next"] == Str("review")
            && AppendedOnce(s, t, CoderTranscript, reply)
            && KeepsOthers(s, t, {"currentCode", CoderTranscript, "next"})
  {
  }

  /**
    `reviewAgent` stores the review, marks the code correct exactly when the review
    accepts it, adds the review to the reviewer's transcript, and writes nothing else.
   */
  lemma ReviewEffect(s: State, reply: string)
    ensures var t := Apply(s, ReviewAgent(s, reply));
            && (IsCorrect(t) <==> Accepts(reply))
            && t["codeReview"] == Str(reply)
            && AppendedOnce(s, t, ReviewerTranscript, reply)
            && KeepsOthers(s, t, {"isCorrect", "codeReview", ReviewerTranscript})
  {
  }

  /**
    `reviseAgent` stores the new code, adds it to the coder's transcript, counts one
    more revision (a count that is not a number stays so), routes to review, and writes
    nothing else.
   */
  lemma ReviseEffect(s: State, reply: string)
    ensures var t := Apply(s, ReviseAgent(s, reply));
            && t["currentCode"] == Str(reply)
            && t["next"] == Str("review")
            && AppendedOnce(s, t, CoderTranscript, reply)
            && (Iterations(s).Some? ==> Iterations(t) == Some(Iterations(s).value + 1))
            && (Iterations(s).None? ==> Iterations(t).None?)
            && KeepsOthers(s, t, {"currentCode", CoderTranscript, "iterations", "next"})
  {
  }

  /** Appending keeps every earlier entry where it was: a transcript only grows. */
  lemma AppendedOnceKeepsPrefix(before: State, after: State, key: string, entry: string)
    requires AppendedOnce(before, after, key, entry)
    ensures |Transcript(after, key)| == |Transcript(before, key)| + 1
    ensures forall i :: 0 <= i < |Transcript(before, key)| ==> Transcript(after, key)[i] == Transcript(before, key)[i]
    ensures Transcript(after, key)[|Transcript(before, key)|] == entry
  {
  }

  /** `reviseAgent` counts one more revision. */
  lemma ReviseCounts(s: State, reply: string, n: nat)
    requires Iterations(s) == Some(n)
    ensures Iterations(Apply(s, ReviseAgent(s, reply))) == Some(n + 1)
  {
  }

  /** Without a number to start from, the count is `NaN` and stays so. */
  lemma ReviseLosesCount(s: State, reply: string)
    requires Iterations(s).None?
    ensures Iterations(Apply(s, ReviseAgent(s, reply))).None?
  {
  }

  /** `reviewAgent` leaves the iteration count and the code alone, and records its verdict. */
  lemma ReviewKeepsCountAndCode(s: State, reply: string)
    ensures Iterations(Apply(s, ReviewAgent(s, reply))) == Iterations(s)
    ensures "currentCode" in s ==> Apply(s, ReviewAgent(s, reply))["currentCode"] == s["currentCode"]
    ensures "currentCode" !in s ==> "currentCode" !in Apply(s, ReviewAgent(s, reply))
    ensures IsCorrect(Apply(s, ReviewAgent(s, reply))) <==> Accepts(reply)
  {
  }

  /** The coder stages leave the verdict of the last review in place. */
  lemma CoderKeepsVerdict(s: State, reply: string)
    ensures IsCorrect(Apply(s, GenerateAgent(s, reply))) <==> IsCorrect(s)
    ensures IsCorrect(Apply(s, ReviseAgent(s, reply))) <==> IsCorrect(s)
  {
  }

  /** The planner and coder stages leave the iteration count alone, except `reviseAgent`. */
  lemma OthersKeepCount(s: State, reply: string)
    ensures Iterations(Apply(s, InstructAgent(s, reply))) == Iterations(s)
    ensures Iterations(Apply(s, GenerateAgent(s, reply))) == Iterations(s)
  {
  }
}
