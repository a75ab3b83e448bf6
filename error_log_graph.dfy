/**
 * The error-log extraction graph: three nodes (`control_node`, `parse_error_log`,
 * `evaluate_error_log`) over a four-field state, wired as
 *
 *   START -> control_node -(route on state.state)-> parse_error_log | evaluate_error_log | END
 *   parse_error_log -> control_node
 *   evaluate_error_log -> control_node
 *
 * Each node returns a partial update that overwrites only the fields it names.
 * The language model and the JSON-schema validation are opaque oracles; the
 * library's run loop is written out as `Run`, which consumes one unit of fuel
 * per node executed.
 */
module ErrorLogGraph {
  import opened Wrappers

  /** The routing labels written into the `state` field. */
  const ParseLabel: string := "parse_error_log"
  const EvaluateLabel: string := "evaluate_error_log"
  const EndLabel: string := "END"

  /** A reply of the language model. */
  type Response = string

  /** The graph state: `state`, `input`, `output` (None until a reply is stored) and `feedback`. */
  datatype GraphState = GraphState(state: string, input: string, output: Option<Response>, feedback: string)

  /**
   * The parts of the system the graph only calls:
   * `reply` is what the chat model answers to `Prompt` (None stands for a reply
   * Python would see as None); the prompt is a constant, so every call of the
   * parse node sends the same text and gets this reply,
   * `validates` says whether the output decodes as an error-log record,
   * `errors` is the validation error list stored as feedback when it does not.
   */
  datatype Oracles = Oracles(
    reply: Option<Response>,
    validates: Option<Response> -> bool,
    errors: Option<Response> -> string)

  /** A partial update: `Some` for each field the node names, `None` for the others. */
  datatype Update = Update(state: Option<string>, output: Option<Option<Response>>, feedback: Option<string>)

  /** The state reducer: named fields are overwritten, the others are kept. */
  function Merge(s: GraphState, u: Update): GraphState
  {
    GraphState(
      if u.state.Some? then u.state.value else s.state,
      s.input,
      if u.output.Some? then u.output.value else s.output,
      if u.feedback.Some? then u.feedback.value else s.feedback)
  }

  /** The nodes of the graph. */
  datatype Node = Control | Parse | Evaluate

  /** Where a routing label leads: a node, or the END sentinel. */
  datatype Target = Goto(node: Node) | Finish

  /** The label map of the conditional edge out of `control_node`. */
  const RouteMap: map<string, Target> :=
    map[ParseLabel := Goto(Parse), EvaluateLabel := Goto(Evaluate), EndLabel := Finish]

  /** `control_node`: decides the next label from `output` and `state`. */
  function ControlNode(s: GraphState): (u: Update)
    ensures u.state.Some? && u.output.None? && u.feedback.None?
    ensures u.state.value in RouteMap
    ensures u.state.value == ParseLabel <==> s.output.None?
    ensures u.state.value == EvaluateLabel <==> s.output.Some? && s.state == ParseLabel
    ensures u.state.value == EndLabel <==> s.output.Some? && s.state != ParseLabel
  {
    if s.output.None? then Update(Some(ParseLabel), None, None)
    else if s.state == ParseLabel then Update(Some(EvaluateLabel), None, None)
    else if s.state == EvaluateLabel then Update(Some(EndLabel), None, None)
    else Update(Some(EndLabel), None, None)
  }

  /** `evaluate_error_log`: validates the output and routes back to parsing with feedback on failure. */
  function EvaluateNode(o: Oracles, s: GraphState): (u: Update)
    ensures u.output == Some(s.output)
    ensures Merge(s, u).output == s.output && Merge(s, u).input == s.input
    ensures o.validates(s.output) ==> Merge(s, u) == s.(state := EndLabel)
    ensures !o.validates(s.output) ==>
      Merge(s, u) == s.(state := ParseLabel, feedback := o.errors(s.output))
  {
    if o.validates(s.output) then Update(Some(EndLabel), Some(s.output), None)
    else Update(Some(ParseLabel), Some(s.output), Some(o.errors(s.output)))
  }

  /**
   * `parse_error_log`: sends `Prompt` to the model and stores its reply as the
   * new output. Nothing of the state goes into the prompt.
   */
  function ParseNode(o: Oracles, s: GraphState): (u: Update)
    ensures u.state == Some(EvaluateLabel) && u.feedback.None?
    ensures Merge(s, u) == s.(state := EvaluateLabel, output := o.reply)
  {
    Update(Some(EvaluateLabel), Some(o.reply), None)
  }

  /** The update a node returns. */
  function NodeUpdate(o: Oracles, at: Node, s: GraphState): Update
  {
    match at
    case Control => ControlNode(s)
    case Parse => ParseNode(o, s)
    case Evaluate => EvaluateNode(o, s)
  }

  /** How a run stopped: at END, on a label the route map lacks, or with fuel exhausted. */
  datatype Status = Finished | Fatal(unmapped: string) | OutOfFuel

  /** The result of a run: how it stopped, the last state, and the nodes executed in order. */
  datatype Outcome = Outcome(status: Status, final: GraphState, trace: seq<Node>)

  /** Only the END label leads to the END sentinel. */
  lemma FinishOnlyAtEnd(key: string)
    requires key in RouteMap && RouteMap[key] == Finish
    ensures key == EndLabel
  {
  }

  function Prepend(n: Node, r: Outcome): Outcome
  {
    r.(trace := [n] + r.trace)
  }

  /**
   * The graph run from node `at`: execute the node, merge its update, follow
   * the fixed edge back to `control_node` or, after `control_node`, the
   * route map. Each executed node costs one unit of fuel; the graph itself
   * has no bound on the number of rounds.
   */
  function Run(o: Oracles, fuel: nat, at: Node, s: GraphState): (r: Outcome)
    decreases fuel
    ensures |r.trace| <= fuel
    ensures r.status.OutOfFuel? ==> |r.trace| == fuel
    ensures !r.status.Fatal?
    ensures r.final.input == s.input
  {
    if fuel == 0 then Outcome(OutOfFuel, s, [])
    else
      var t := Merge(s, NodeUpdate(o, at, s));
      if at != Control then Prepend(at, Run(o, fuel - 1, Control, t))
      else if t.state !in RouteMap then Outcome(Fatal(t.state), t, [Control])
      else match RouteMap[t.state]
        case Finish => Outcome(Finished, t, [Control])
        case Goto(n) => Prepend(Control, Run(o, fuel - 1, n, t))
  }

  /** A finished outcome ends at END after a control step, with an output present. */
  ghost predicate EndsAtEnd(r: Outcome)
  {
    r.status.Finished? ==>
      r.final.state == EndLabel && r.final.output.Some? && |r.trace| > 0 && r.trace[|r.trace| - 1] == Control
  }

  /** Putting a node in front of a trace keeps its last node. */
  lemma PrependKeepsEnd(n: Node, r: Outcome)
    requires EndsAtEnd(r)
    ensures EndsAtEnd(Prepend(n, r))
  {
    if r.status.Finished? {
      assert Prepend(n, r).trace[|r.trace|] == r.trace[|r.trace| - 1];
    }
  }

  /** A run that finishes ends at END after a control step, with an output present. */
  lemma {:induction false} FinishedAtEnd(o: Oracles, fuel: nat, at: Node, s: GraphState)
    ensures EndsAtEnd(Run(o, fuel, at, s))
    decreases fuel
  {
    if fuel > 0 {
      var t := Merge(s, NodeUpdate(o, at, s));
      if at != Control {
        NodeStep(o, fuel, at, s);
        FinishedAtEnd(o, fuel - 1, Control, t);
        PrependKeepsEnd(at, Run(o, fuel - 1, Control, t));
      } else {
        ControlStep(o, fuel, s);
        match RouteMap[t.state]
        case Finish => FinishOnlyAtEnd(t.state);
        case Goto(n) =>
          FinishedAtEnd(o, fuel - 1, n, t);
          PrependKeepsEnd(Control, Run(o, fuel - 1, n, t));
      }
    }
  }

  /** A control step routes by the label it writes, which the route map always holds. */
  lemma ControlStep(o: Oracles, fuel: nat, s: GraphState)
    requires fuel >= 1
    ensures var t := Merge(s, ControlNode(s));
      && t.state in RouteMap
      && (RouteMap[t.state] == Finish ==> Run(o, fuel, Control, s) == Outcome(Finished, t, [Control]))
      && (RouteMap[t.state].Goto? ==>
            Run(o, fuel, Control, s) == Prepend(Control, Run(o, fuel - 1, RouteMap[t.state].node, t)))
  {
  }

  /** With no fuel left, nothing runs. */
  lemma NoFuel(o: Oracles, at: Node, s: GraphState)
    ensures Run(o, 0, at, s) == Outcome(OutOfFuel, s, [])
  {
  }

  /** A step of a node other than control is followed by control, on the merged state. */
  lemma NodeStep(o: Oracles, fuel: nat, at: Node, s: GraphState)
    requires fuel >= 1 && at != Control
    ensures Run(o, fuel, at, s) == Prepend(at, Run(o, fuel - 1, Control, Merge(s, NodeUpdate(o, at, s))))
  {
  }

  /** An output that fails validation sends evaluate back to control under the parse label, with feedback. */
  lemma EvaluateRejects(o: Oracles, fuel: nat, s: GraphState)
    requires fuel >= 1 && !o.validates(s.output)
    ensures Run(o, fuel, Evaluate, s)
      == Prepend(Evaluate, Run(o, fuel - 1, Control, s.(state := ParseLabel, feedback := o.errors(s.output))))
  {
    NodeStep(o, fuel, Evaluate, s);
  }

  /** Parse stores the model's reply and returns to control under the evaluate label. */
  lemma ParseStep(o: Oracles, fuel: nat, s: GraphState)
    requires fuel >= 1
    ensures Run(o, fuel, Parse, s)
      == Prepend(Parse, Run(o, fuel - 1, Control, s.(state := EvaluateLabel, output := o.reply)))
  {
    NodeStep(o, fuel, Parse, s);
  }

  /** With no output, control routes to parse. */
  lemma ControlToParse(o: Oracles, fuel: nat, s: GraphState)
    requires fuel >= 1 && s.output.None?
    ensures Run(o, fuel, Control, s) == Prepend(Control, Run(o, fuel - 1, Parse, s.(state := ParseLabel)))
  {
    assert Merge(s, ControlNode(s)) == s.(state := ParseLabel);
  }

  /** With an output under the parse label, control routes to evaluate. */
  lemma ControlToEvaluate(o: Oracles, fuel: nat, s: GraphState)
    requires fuel >= 1 && s.output.Some? && s.state == ParseLabel
    ensures Run(o, fuel, Control, s) == Prepend(Control, Run(o, fuel - 1, Evaluate, s.(state := EvaluateLabel)))
  {
    assert Merge(s, ControlNode(s)) == s.(state := EvaluateLabel);
  }


  /**
   * Starting with no output (and a model that answers), the run stops after
   * control, parse, control: one model call, and the reply is kept without
   * ever being validated.
   */
  lemma {:induction false} NoOutputEndsUnvalidated(o: Oracles, fuel: nat, s: GraphState)
    requires s.output.None? && o.reply.Some?
    requires fuel >= 3
    ensures Run(o, fuel, Control, s)
      == Outcome(Finished, s.(state := EndLabel, output := o.reply), [Control, Parse, Control])
    ensures Evaluate !in Run(o, fuel, Control, s).trace
    ensures multiset(Run(o, fuel, Control, s).trace)[Parse] == 1
  {
    var s1 := s.(state := ParseLabel);
    var s2 := s.(state := EvaluateLabel, output := o.reply);
    var s3 := s2.(state := EndLabel);
    assert Run(o, fuel - 2, Control, s2) == Outcome(Finished, s3, [Control]);
    assert Run(o, fuel - 1, Parse, s1) == Outcome(Finished, s3, [Parse, Control]);
  }

  /** Starting from an output that validates, evaluation ends the run without a model call. */
  lemma {:induction false} ValidOutputEnds(o: Oracles, fuel: nat, s: GraphState)
    requires s.output.Some? && s.state == ParseLabel && o.validates(s.output)
    requires fuel >= 3
    ensures Run(o, fuel, Control, s)
      == Outcome(Finished, s.(state := EndLabel), [Control, Evaluate, Control])
  {
    var s1 := s.(state := EvaluateLabel);
    var s2 := s.(state := EndLabel);
    assert Run(o, fuel - 2, Control, s2) == Outcome(Finished, s2, [Control]);
    assert Run(o, fuel - 1, Evaluate, s1) == Outcome(Finished, s2, [Evaluate, Control]);
  }

  /** With an output present and any label other than the parse label, the first control step ends the run. */
  lemma {:induction false} OutputPresentEndsAtOnce(o: Oracles, fuel: nat, s: GraphState)
    requires s.output.Some? && s.state != ParseLabel
    requires fuel >= 1
    ensures Run(o, fuel, Control, s) == Outcome(Finished, s.(state := EndLabel), [Control])
  {
  }

  /** One control -> evaluate round on an output that fails validation comes back to the same label and output. */
  lemma RejectedRound(o: Oracles, s: GraphState)
    requires s.output.Some? && s.state == ParseLabel && !o.validates(s.output)
    ensures var t := Merge(s, ControlNode(s));
      t.state == EvaluateLabel && RouteMap[t.state] == Goto(Evaluate)
      && Merge(t, EvaluateNode(o, t)) == s.(feedback := o.errors(s.output))
  {
  }

  /** The trace alternates between `a` (even positions) and `b` (odd positions). */
  ghost predicate Alternates(trace: seq<Node>, a: Node, b: Node)
    decreases |trace|
  {
    trace == [] || (trace[0] == a && Alternates(trace[1..], b, a))
  }

  /** Putting `a` in front of a trace that alternates from `b` gives one that alternates from `a`. */
  lemma AlternatesCons(a: Node, b: Node, rest: seq<Node>)
    requires Alternates(rest, b, a)
    ensures Alternates([a] + rest, a, b)
  {
    assert ([a] + rest)[1..] == rest;
  }

  /** An alternating trace holds no third node. */
  lemma {:induction false} AlternatesExclude(trace: seq<Node>, a: Node, b: Node, c: Node)
    requires Alternates(trace, a, b) && c != a && c != b
    ensures c !in trace
    decreases |trace|
  {
    if trace != [] {
      AlternatesExclude(trace[1..], b, a, c);
      assert trace == [trace[0]] + trace[1..];
    }
  }

  /**
   * Starting from an output that fails validation under the parse label, the
   * graph alternates control and evaluate for as long as fuel lasts: it never
   * finishes, never calls the model again, and the output never changes.
   */
  lemma {:induction false} RejectedOutputLoopsForever(o: Oracles, fuel: nat, s: GraphState)
    requires s.output.Some? && s.state == ParseLabel && !o.validates(s.output)
    ensures var r := Run(o, fuel, Control, s);
      r.status == OutOfFuel && Parse !in r.trace && Alternates(r.trace, Control, Evaluate)
      && r.final.output == s.output
    decreases fuel, 1
  {
    if fuel == 0 {
      NoFuel(o, Control, s);
    } else {
      var s1 := s.(state := EvaluateLabel);
      ControlToEvaluate(o, fuel, s);
      RejectedOutputEvaluated(o, fuel - 1, s1);
      var rest := Run(o, fuel - 1, Evaluate, s1);
      AlternatesCons(Control, Evaluate, rest.trace);
    }
    AlternatesExclude(Run(o, fuel, Control, s).trace, Control, Evaluate, Parse);
  }

  /** The evaluate half of `RejectedOutputLoopsForever`. */
  lemma {:induction false} RejectedOutputEvaluated(o: Oracles, fuel: nat, s: GraphState)
    requires s.output.Some? && !o.validates(s.output)
    ensures var r := Run(o, fuel, Evaluate, s);
      r.status == OutOfFuel && Alternates(r.trace, Evaluate, Control) && r.final.output == s.output
    decreases fuel, 0
  {
    if fuel == 0 {
      NoFuel(o, Evaluate, s);
    } else {
      var s1 := s.(state := ParseLabel, feedback := o.errors(s.output));
      EvaluateRejects(o, fuel, s);
      RejectedOutputLoopsForever(o, fuel - 1, s1);
      var rest := Run(o, fuel - 1, Control, s1);
      AlternatesCons(Evaluate, Control, rest.trace);
    }
  }

  /**
   * In an alternating trace the second node takes every odd position (half
   * the trace, rounded down) and the first every even one.
   */
  lemma {:induction false} AlternatingCount(trace: seq<Node>, a: Node, b: Node)
    requires a != b && Alternates(trace, a, b)
    ensures multiset(trace)[b] == |trace| / 2
    ensures multiset(trace)[a] == (|trace| + 1) / 2
    decreases |trace|
  {
    if trace != [] {
      AlternatingCount(trace[1..], b, a);
      assert trace == [a] + trace[1..];
      assert multiset(trace) == multiset([a]) + multiset(trace[1..]);
    }
  }

  /**
   * Starting with no output and a model whose reply is None, the graph
   * alternates control and parse for as long as fuel lasts.
   */
  lemma {:induction false} NoReplyAlternates(o: Oracles, fuel: nat, s: GraphState)
    requires s.output.None? && o.reply.None?
    ensures var r := Run(o, fuel, Control, s);
      r.status == OutOfFuel && Alternates(r.trace, Control, Parse)
    decreases fuel, 1
  {
    if fuel == 0 {
      NoFuel(o, Control, s);
    } else {
      var s1 := s.(state := ParseLabel);
      ControlToParse(o, fuel, s);
      NoReplyParsed(o, fuel - 1, s1);
      var rest := Run(o, fuel - 1, Parse, s1);
      AlternatesCons(Control, Parse, rest.trace);
    }
  }

  /** The parse half of `NoReplyAlternates`. */
  lemma {:induction false} NoReplyParsed(o: Oracles, fuel: nat, s: GraphState)
    requires o.reply.None?
    ensures var r := Run(o, fuel, Parse, s);
      r.status == OutOfFuel && Alternates(r.trace, Parse, Control)
    decreases fuel, 0
  {
    if fuel == 0 {
      NoFuel(o, Parse, s);
    } else {
      var s1 := s.(state := EvaluateLabel, output := None);
      ParseStep(o, fuel, s);
      NoReplyAlternates(o, fuel - 1, s1);
      var rest := Run(o, fuel - 1, Control, s1);
      AlternatesCons(Parse, Control, rest.trace);
    }
  }

  /**
   * Starting with no output and a model whose reply is None, the run never
   * finishes and calls the model once per control -> parse round.
   */
  lemma NoReplyCallsModelForever(o: Oracles, fuel: nat, s: GraphState)
    requires s.output.None? && o.reply.None?
    ensures var r := Run(o, fuel, Control, s);
      r.status == OutOfFuel && multiset(r.trace)[Parse] == fuel / 2
  {
    NoReplyAlternates(o, fuel, s);
    AlternatingCount(Run(o, fuel, Control, s).trace, Control, Parse);
  }
}
