/** The step log both engines emit (src/types.ts AlgorithmStep). The human
    readable `message` is left out; the step kind, the node it concerns, the
    snapshots and the pseudocode line carry its meaning. */
module Steps {
  import opened Graph

  datatype Option<T> = None | Some(value: T)

  datatype StepKind = Select | Remove | Update | Explore | Push | Pop | Complete

  /** One atomic transition of a run. Every snapshot field is optional, as in
      the source; `codeLine` is the pseudocode line the panel highlights. */
  datatype Step = Step(
    kind: StepKind,
    nodeId: Option<NodeId>,
    inDegrees: Option<map<NodeId, int>>,
    queue: Option<seq<NodeId>>,
    stack: Option<seq<NodeId>>,
    result: Option<seq<NodeId>>,
    codeLine: Option<int>)

  /** The node ids of the steps of kind `kind` emitted at pseudocode line
      `line`, in log order: the trace of one emission site. */
  function IdsAt(log: seq<Step>, kind: StepKind, line: int): seq<NodeId> {
    if log == [] then []
    else
      var s := log[|log| - 1];
      IdsAt(log[..|log| - 1], kind, line) + Site(s, kind, line)
  }

  /** The node id of `s` if it was emitted by the site (`kind`, `line`). */
  function Site(s: Step, kind: StepKind, line: int): seq<NodeId> {
    if s.kind == kind && s.codeLine == Some(line) && s.nodeId.Some? then [s.nodeId.value] else []
  }

  /** The order the log ends with: the `result` of its last step, if any. */
  function FinalResult(log: seq<Step>): seq<NodeId> {
    if log != [] && log[|log| - 1].result.Some? then log[|log| - 1].result.value else []
  }

  lemma IdsAtAppend(log: seq<Step>, s: Step, kind: StepKind, line: int)
    ensures IdsAt(log + [s], kind, line) == IdsAt(log, kind, line) + Site(s, kind, line)
  {
    assert (log + [s])[..|log|] == log;
  }

  /** A step from another site leaves the trace of (`kind`, `line`) as is. */
  lemma IdsAtSkip(log: seq<Step>, s: Step, kind: StepKind, line: int)
    requires s.kind != kind || s.codeLine != Some(line)
    ensures IdsAt(log + [s], kind, line) == IdsAt(log, kind, line)
  {
    IdsAtAppend(log, s, kind, line);
    assert IdsAt(log, kind, line) + [] == IdsAt(log, kind, line);
  }
}
