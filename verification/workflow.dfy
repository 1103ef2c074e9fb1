/**
  The graph of backend/workflow.js: fixed edges
  START → design → instruct → generate → review, a conditional edge out of review,
  revise → review, and summarize → END.  From review the run goes to summarize when
  the last review accepted the code or `MAXITERATIONS` revisions have been made, and
  to revise otherwise.

  Each stage that calls a model is given that model's reply; `design` and `summarize`
  are not defined in backend/agents.js and are taken as stages that change no channel.
 */
module Workflow {
  import opened Optional
  import opened Channels
  import opened Agents

  datatype Stage = Start | Design | Instruct | Generate | Review | Revise | Summarize | End

  const MaxIterations: nat := 3

  /** `state.iterations >= MAXITERATIONS`; `undefined` and `NaN` compare false. */
  predicate AtLimit(s: State) {
    Iterations(s).Some? && Iterations(s).value >= MaxIterations
  }

  /** `reviewConditionalEdges(state)`. */
  function ReviewRoute(s: State): (next: Stage)
    ensures next == Summarize || next == Revise
    ensures next == Summarize <==> IsCorrect(s) || AtLimit(s)
  {
    if IsCorrect(s) || AtLimit(s) then Summarize else Revise
  }

  /** The successor of a stage, once the stage has updated the state to `s`. */
  function Successor(stage: Stage, s: State): (next: Stage)
    ensures stage == Start ==> next == Design
    ensures stage == Design ==> next == Instruct
    ensures stage == Instruct ==> next == Generate
    ensures stage == Generate ==> next == Review
    ensures stage == Revise ==> next == Review
    ensures stage == Summarize || stage == End ==> next == End
  {
    match stage
    case Start => Design
    case Design => Instruct
    case Instruct => Generate
    case Generate => Review
    case Review => ReviewRoute(s)
    case Revise => Review
    case Summarize => End
    case End => End
  }

  /** What a stage writes, given the reply of the model it calls (ignored by the others). */
  function Node(stage: Stage, s: State, reply: string): Update {
    match stage
    case Instruct => InstructAgent(s, reply)
    case Generate => GenerateAgent(s, reply)
    case Review => ReviewAgent(s, reply)
    case Revise => ReviseAgent(s, reply)
    case _ => map[]
  }

  /** The point a run has reached: the stage about to run, and the channels. */
  datatype Config = Config(stage: Stage, state: State)

  /** Run the current stage and follow its outgoing edge. */
  function Step(c: Config, reply: string): Config {
    if c.stage == End then c
    else
      var s := Apply(c.state, Node(c.stage, c.state, reply));
      Config(Successor(c.stage, s), s)
  }

  /** The stages a run visits, consuming one reply per stage, until END or the replies run out. */
  function Trace(c: Config, replies: seq<string>): seq<Stage>
    decreases |replies|
  {
    if c.stage == End || |replies| == 0 then [c.stage]
    else [c.stage] + Trace(Step(c, replies[0]), replies[1..])
  }

  /** Where the run stands after the replies. */
  function Final(c: Config, replies: seq<string>): Config
    decreases |replies|
  {
    if c.stage == End || |replies| == 0 then c
    else Final(Step(c, replies[0]), replies[1..])
  }

  /** A run as `server.js` starts it: only the `task` channel is set. */
  function Invoke(task: string): Config {
    Config(Start, map["task" := Str(task)])
  }

  /** The same run with `iterations` initialised to 0. */
  function InvokeCounted(task: string): Config {
    Config(Start, map["task" := Str(task), "iterations" := Num(0)])
  }

  // ---------------------------------------------------------------------------
  // Single steps
  // ---------------------------------------------------------------------------

  /** Revise is entered only from review, after a rejection, below the revision limit. */
  lemma ReviseOnlyAfterRejection(c: Config, reply: string)
    requires Step(c, reply).stage == Revise
    ensures c.stage == Review
    ensures !Accepts(reply)
    ensures Iterations(c.state).Some? ==> Iterations(c.state).value < MaxIterations
  {
    var s := Apply(c.state, Node(c.stage, c.state, reply));
    if c.stage == Review {
      ReviewKeepsCountAndCode(c.state, reply);
    }
  }

  /** Summarize is entered only from review, after an acceptance or at the revision limit. */
  lemma SummarizeOnlyAfterAcceptanceOrLimit(c: Config, reply: string)
    requires Step(c, reply).stage == Summarize
    ensures c.stage == Review
    ensures Accepts(reply) || AtLimit(c.state)
  {
    if c.stage == Review {
      ReviewKeepsCountAndCode(c.state, reply);
    }
  }

  /** The fixed edges: out of every stage but review, the next stage does not depend on the reply. */
  lemma FixedEdges(c: Config, reply: string)
    ensures c.stage == Start ==> Step(c, reply).stage == Design
    ensures c.stage == Design ==> Step(c, reply).stage == Instruct
    ensures c.stage == Instruct ==> Step(c, reply).stage == Generate
    ensures c.stage == Generate ==> Step(c, reply).stage == Review
    ensures c.stage == Revise ==> Step(c, reply).stage == Review
    ensures c.stage == Summarize ==> Step(c, reply).stage == End
    ensures c.stage == End ==> Step(c, reply) == c
  {
  }

  /**
    Out of review, the reply's verdict and the count decide: summarize when this review
    accepts or the limit is reached, and revise otherwise.
   */
  lemma ReviewRoutes(c: Config, reply: string)
    requires c.stage == Review
    ensures Step(c, reply).stage == Summarize <==> Accepts(reply) || AtLimit(c.state)
    ensures Step(c, reply).stage == Revise <==> !Accepts(reply) && !AtLimit(c.state)
  {
    ReviewKeepsCountAndCode(c.state, reply);
  }

  /** Review is entered only from generate or revise. */
  lemma ReviewOnlyAfterCode(c: Config, reply: string)
    requires Step(c, reply).stage == Review
    ensures c.stage == Generate || c.stage == Revise
  {
  }

  // ---------------------------------------------------------------------------
  // Boundedness, when `iterations` starts as a number
  // ---------------------------------------------------------------------------

  /** `3 - min(iterations, 3)`: the revisions still allowed. */
  function Left(s: State): nat
    requires Iterations(s).Some?
  {
    if Iterations(s).value >= MaxIterations then 0 else MaxIterations - Iterations(s).value
  }

  /** The iteration count is a number, and a revise stage is below the limit. */
  predicate Counted(c: Config) {
    Iterations(c.state).Some?
    && (c.stage == Revise ==> Iterations(c.state).value < MaxIterations)
  }

  /** The most steps left before END. */
  function Potential(c: Config): nat
    requires Counted(c)
  {
    match c.stage
    case Start => 2 * Left(c.state) + 6
    case Design => 2 * Left(c.state) + 5
    case Instruct => 2 * Left(c.state) + 4
    case Generate => 2 * Left(c.state) + 3
    case Review => 2 * Left(c.state) + 2
    case Revise => 2 * Left(c.state) + 1
    case Summarize => 1
    case End => 0
  }

  /** The most revise stages left, counting the current one. */
  function RevisesLeft(c: Config): nat
    requires Counted(c)
  {
    match c.stage
    case Summarize => 0
    case End => 0
    case _ => Left(c.state)
  }

  /** The most review stages left, counting the current one. */
  function ReviewsLeft(c: Config): nat
    requires Counted(c)
  {
    match c.stage
    case Summarize => 0
    case End => 0
    case Revise => Left(c.state)
    case _ => Left(c.state) + 1
  }

  /** The count after the stage has run: only revise changes it, by one. */
  lemma NodeCount(c: Config, reply: string)
    requires Counted(c)
    ensures var s := Apply(c.state, Node(c.stage, c.state, reply));
            && Iterations(s).Some?
            && (c.stage == Revise ==> Iterations(s).value == Iterations(c.state).value + 1)
            && (c.stage != Revise ==> Iterations(s) == Iterations(c.state))
  {
    match c.stage
    case Instruct => OthersKeepCount(c.state, reply);
    case Generate => OthersKeepCount(c.state, reply);
    case Review => ReviewKeepsCountAndCode(c.state, reply);
    case Revise => ReviseCounts(c.state, reply, Iterations(c.state).value);
    case _ =>
  }

  /** Every step before END keeps the count a number and uses up one unit of potential. */
  lemma StepDecreases(c: Config, reply: string)
    requires Counted(c) && c.stage != End
    ensures Counted(Step(c, reply))
    ensures Potential(Step(c, reply)) < Potential(c)
    ensures RevisesLeft(Step(c, reply)) + (if c.stage == Revise then 1 else 0) <= RevisesLeft(c)
    ensures ReviewsLeft(Step(c, reply)) + (if c.stage == Review then 1 else 0) <= ReviewsLeft(c)
  {
    NodeCount(c, reply);
  }

  /** Enough replies always bring a counted run to END. */
  lemma {:induction false} ReachesEnd(c: Config, replies: seq<string>)
    requires Counted(c) && |replies| >= Potential(c)
    ensures Final(c, replies).stage == End
    decreases |replies|
  {
    if c.stage != End {
      StepDecreases(c, replies[0]);
      ReachesEnd(Step(c, replies[0]), replies[1..]);
    }
  }

  function Count(t: seq<Stage>, stage: Stage): nat
    decreases |t|
  {
    if |t| == 0 then 0 else (if t[0] == stage then 1 else 0) + Count(t[1..], stage)
  }

  /** A counted run visits revise and review no more often than its potential allows. */
  lemma {:induction false} VisitsBounded(c: Config, replies: seq<string>)
    requires Counted(c)
    ensures Count(Trace(c, replies), Revise) <= RevisesLeft(c)
    ensures Count(Trace(c, replies), Review) <= ReviewsLeft(c)
    decreases |replies|
  {
    var t := Trace(c, replies);
    if c.stage == End || |replies| == 0 {
      assert t == [c.stage] && t[1..] == [];
    } else {
      var c2 := Step(c, replies[0]);
      StepDecreases(c, replies[0]);
      VisitsBounded(c2, replies[1..]);
      assert t[0] == c.stage && t[1..] == Trace(c2, replies[1..]);
    }
  }

  /**
    Started with `iterations` at 0, a run reaches END after at most 12 replies, whatever
    the reviews say, with at most 3 revisions and 4 reviews on the way.
   */
  lemma CountedRunTerminates(task: string, replies: seq<string>)
    ensures |replies| >= 12 ==> Final(InvokeCounted(task), replies).stage == End
    ensures Count(Trace(InvokeCounted(task), replies), Revise) <= 3
    ensures Count(Trace(InvokeCounted(task), replies), Review) <= 4
  {
    var c := InvokeCounted(task);
    assert Iterations(c.state) == Some(0);
    if |replies| >= 12 {
      ReachesEnd(c, replies);
    }
    VisitsBounded(c, replies);
  }

  // ---------------------------------------------------------------------------
  // Without a count
  // ---------------------------------------------------------------------------

  /**
    Every review the run reaches rejects the code.  Only the reply a review stage
    consumes is constrained; the planner's and the coder's replies may say anything.
   */
  predicate ReviewsReject(c: Config, replies: seq<string>)
    decreases |replies|
  {
    c.stage == End || |replies| == 0
    || ((c.stage == Review ==> !Accepts(replies[0])) && ReviewsReject(Step(c, replies[0]), replies[1..]))
  }

  /** A run in the review/revise loop with no count to stop it. */
  predicate Uncounted(c: Config) {
    Iterations(c.state).None? && !IsCorrect(c.state)
  }

  /** From a state with no count, every stage but a review that accepts keeps the run in the loop. */
  lemma UncountedStep(c: Config, reply: string)
    requires Uncounted(c) && (c.stage == Review ==> !Accepts(reply))
    requires c.stage in {Start, Design, Instruct, Generate, Review, Revise}
    ensures Uncounted(Step(c, reply))
    ensures Step(c, reply).stage in {Design, Instruct, Generate, Review, Revise}
  {
    match c.stage
    case Instruct => OthersKeepCount(c.state, reply);
    case Generate =>
      OthersKeepCount(c.state, reply);
      CoderKeepsVerdict(c.state, reply);
    case Review => ReviewKeepsCountAndCode(c.state, reply);
    case Revise =>
      ReviseLosesCount(c.state, reply);
      CoderKeepsVerdict(c.state, reply);
    case _ =>
  }

  lemma {:induction false} UncountedNeverEnds(c: Config, replies: seq<string>)
    requires Uncounted(c) && ReviewsReject(c, replies)
    requires c.stage in {Start, Design, Instruct, Generate, Review, Revise}
    ensures Final(c, replies).stage in {Start, Design, Instruct, Generate, Review, Revise}
    decreases |replies|
  {
    if |replies| > 0 {
      UncountedStep(c, replies[0]);
      UncountedNeverEnds(Step(c, replies[0]), replies[1..]);
    }
  }

  /**
    As `server.js` starts it, without `iterations`, a run whose reviews all reject
    never reaches summarize or END: `undefined + 1` is `NaN`, and `NaN >= 3` is false.
   */
  lemma InvokedRunNeverEnds(task: string, replies: seq<string>)
    requires ReviewsReject(Invoke(task), replies)
    ensures Final(Invoke(task), replies).stage != End
    ensures Final(Invoke(task), replies).stage != Summarize
  {
    var c := Invoke(task);
    assert Iterations(c.state).None?;
    UncountedNeverEnds(c, replies);
  }
}
