/** A client instance making a sequence of calls. The local mirror is only
    as fresh as the writes made through this instance: each call rewrites at
    most the entry of the node it names, and no entry ever disappears. Each
    call meets the remote as it stands when that call is made, so every call
    carries its own `Env`; how one call's writes change what the next call
    reads is the server's business and is not modelled. */
module Session {
  import opened Values
  import opened Wire
  import opened Client

  /** One public write-side call of the client, with its arguments. */
  datatype Call =
    | SetValueCall(node: string, key: string, value: Value, stringFormat: bool)
    | CreateNodeCall(node: string, key: string, value: Value)
    | RemoveValueCall(node: string, key: string)
    | RemoveNodeCall(node: string)
    | OverwriteNodeCall(node: string, value: Value, stringFormat: bool)

  /** A call together with the remote as that call finds it. */
  datatype Step = Step(call: Call, env: Env)

  function Apply(mirror: Mirror, call: Call, env: Env): (r: Result<Effect, Failure>)
    ensures r.Ok? ==> mirror.Keys <= r.value.mirror.Keys <= mirror.Keys + {call.node}
    ensures r.Ok? ==> forall n :: n in mirror && n != call.node ==> r.value.mirror[n] == mirror[n]
    ensures r.Ok? && r.value.sent.Some? ==> r.value.sent.value.node == call.node && call.node in r.value.mirror
    ensures r.Ok? && r.value.ok ==> r.value.sent.Some?
  {
    match call
    case SetValueCall(node, key, value, stringFormat) => SetValue(mirror, node, key, value, stringFormat, env)
    case CreateNodeCall(node, key, value) => CreateNode(mirror, node, key, value, env)
    case RemoveValueCall(node, key) => RemoveValue(mirror, node, key, env)
    case RemoveNodeCall(node) => RemoveNode(mirror, node, env)
    case OverwriteNodeCall(node, value, stringFormat) => OverwriteNode(mirror, node, value, stringFormat, env)
  }

  /** The nodes a sequence of calls names. */
  function Targets(steps: seq<Step>): (names: set<string>)
  {
    if steps == [] then {} else {steps[0].call.node} + Targets(steps[1..])
  }

  lemma {:induction false} TargetsAreNamedBySomeStep(steps: seq<Step>, n: string)
    requires n in Targets(steps)
    ensures exists s :: s in steps && s.call.node == n
    decreases |steps|
  {
    if steps[0].call.node != n {
      TargetsAreNamedBySomeStep(steps[1..], n);
      var s :| s in steps[1..] && s.call.node == n;
      assert s in steps;
    }
  }

  /** What a sequence of calls leaves behind: the final mirror, the write
      requests sent in order, the booleans the returning calls gave, and the
      error that stopped the sequence, if one was raised. */
  datatype Trace = Trace(mirror: Mirror, sent: seq<Request>, results: seq<bool>, raised: Option<Failure>)

  function SentBy(e: Effect): (requests: seq<Request>)
  {
    match e.sent
    case None => []
    case Some(request) => [request]
  }

  /** One call as a step function: the call applied to the mirror it finds,
      against the remote it meets. */
  function ApplyStep(mirror: Mirror, step: Step): (r: Result<Effect, Failure>)
  {
    Apply(mirror, step.call, step.env)
  }

  /** Runs the steps in order with the given step function, stopping at the
      first error raised. Stated over any step function, so that what follows
      from the order of calls alone is proved once, apart from what the calls do. */
  function Run(mirror: Mirror, steps: seq<Step>, apply: (Mirror, Step) -> Result<Effect, Failure>): (t: Trace)
    // each call either returns or raises, and the sequence stops at a raise
    ensures |t.results| <= |steps|
    ensures t.raised.None? <==> |t.results| == |steps|
    // the call after the returning ones raised the recorded error, against
    // the mirror it found, which a raise leaves as it was
    ensures t.raised.Some? ==> apply(t.mirror, steps[|t.results|]) == Err(t.raised.value)
    // at most one write request per call
    ensures |t.sent| <= |t.results|
    decreases |steps|
  {
    if steps == [] then Trace(mirror, [], [], None)
    else
      var first := apply(mirror, steps[0]);
      if first.Err? then Trace(mirror, [], [], Some(first.error))
      else
        var rest := Run(first.value.mirror, steps[1..], apply);
        assert rest.raised.Some? ==> steps[1..][|rest.results|] == steps[1 + |rest.results|];
        Trace(rest.mirror, SentBy(first.value) + rest.sent, [first.value.ok] + rest.results, rest.raised)
  }

  /** One step of a run whose first call returns. */
  lemma RunStep(mirror: Mirror, steps: seq<Step>, apply: (Mirror, Step) -> Result<Effect, Failure>)
    requires steps != [] && apply(mirror, steps[0]).Ok?
    ensures var effect := apply(mirror, steps[0]).value;
            var rest := Run(effect.mirror, steps[1..], apply);
            Run(mirror, steps, apply)
              == Trace(rest.mirror, SentBy(effect) + rest.sent, [effect.ok] + rest.results, rest.raised)
  {
  }

  /** A run that records a result, or raises nothing over a non-empty
      sequence, got past its first call. */
  lemma RunFirstReturns(mirror: Mirror, steps: seq<Step>, apply: (Mirror, Step) -> Result<Effect, Failure>)
    requires steps != []
    requires Run(mirror, steps, apply).raised.None? || |Run(mirror, steps, apply).results| > 0
    ensures apply(mirror, steps[0]).Ok?
  {
  }

  /** A run stops at its first raise: when the first `i` steps return and
      step `i` raises, exactly `i` results are recorded and the error recorded
      is that step's. */
  lemma {:induction false} RunStopsAtFirstRaise(mirror: Mirror, steps: seq<Step>, i: nat,
                                                apply: (Mirror, Step) -> Result<Effect, Failure>)
    requires i < |steps|
    requires Run(mirror, steps[..i], apply).raised.None?
    requires apply(Run(mirror, steps[..i], apply).mirror, steps[i]).Err?
    ensures |Run(mirror, steps, apply).results| == i
    ensures Run(mirror, steps, apply).raised
              == Some(apply(Run(mirror, steps[..i], apply).mirror, steps[i]).error)
    decreases i
  {
    if i == 0 {
      assert steps[..0] == [];
    } else {
      var prefix := steps[..i];
      assert prefix[0] == steps[0];
      RunFirstReturns(mirror, prefix, apply);
      var first := apply(mirror, steps[0]);
      RunStep(mirror, prefix, apply);
      RunStep(mirror, steps, apply);
      assert prefix[1..] == steps[1..][..i - 1];
      assert steps[1..][i - 1] == steps[i];
      RunStopsAtFirstRaise(first.value.mirror, steps[1..], i - 1, apply);
    }
  }

  /** The `i`-th result of a run is what the `i`-th call returned, applied to
      the mirror the calls before it left; those calls raised nothing. */
  lemma {:induction false} RunResults(mirror: Mirror, steps: seq<Step>, i: nat,
                                      apply: (Mirror, Step) -> Result<Effect, Failure>)
    requires i < |Run(mirror, steps, apply).results|
    ensures Run(mirror, steps[..i], apply).raised.None?
    ensures var r := apply(Run(mirror, steps[..i], apply).mirror, steps[i]);
            r.Ok? && Run(mirror, steps, apply).results[i] == r.value.ok
    decreases i
  {
    RunFirstReturns(mirror, steps, apply);
    var first := apply(mirror, steps[0]);
    RunStep(mirror, steps, apply);
    if i == 0 {
      assert steps[..0] == [];
    } else {
      var prefix := steps[..i];
      assert prefix[0] == steps[0];
      RunStep(mirror, prefix, apply);
      assert prefix[1..] == steps[1..][..i - 1];
      assert steps[1..][i - 1] == steps[i];
      RunResults(first.value.mirror, steps[1..], i - 1, apply);
    }
  }

  /** Runs the calls in order, stopping at the first error raised. */
  function Replay(mirror: Mirror, steps: seq<Step>): (t: Trace)
    ensures |t.results| <= |steps|
    ensures t.raised.None? <==> |t.results| == |steps|
    ensures t.raised.Some? ==>
              Apply(t.mirror, steps[|t.results|].call, steps[|t.results|].env) == Err(t.raised.value)
    ensures |t.sent| <= |t.results|
  {
    Run(mirror, steps, ApplyStep)
  }

  /** One step of a sequence whose first call returns. */
  lemma ReplayStep(mirror: Mirror, steps: seq<Step>)
    requires steps != [] && Apply(mirror, steps[0].call, steps[0].env).Ok?
    ensures var effect := Apply(mirror, steps[0].call, steps[0].env).value;
            var rest := Replay(effect.mirror, steps[1..]);
            Replay(mirror, steps)
              == Trace(rest.mirror, SentBy(effect) + rest.sent, [effect.ok] + rest.results, rest.raised)
  {
  }

  /** A sequence stops at its first raise: when the first `i` calls return
      and call `i` raises, exactly `i` results are recorded and the error
      recorded is that call's. */
  lemma ReplayStopsAtFirstRaise(mirror: Mirror, steps: seq<Step>, i: nat)
    requires i < |steps|
    requires Replay(mirror, steps[..i]).raised.None?
    requires Apply(Replay(mirror, steps[..i]).mirror, steps[i].call, steps[i].env).Err?
    ensures |Replay(mirror, steps).results| == i
    ensures Replay(mirror, steps).raised
              == Some(Apply(Replay(mirror, steps[..i]).mirror, steps[i].call, steps[i].env).error)
  {
    RunStopsAtFirstRaise(mirror, steps, i, ApplyStep);
  }

  /** The `i`-th recorded result is the boolean the `i`-th call returned,
      applied to the mirror the calls before it left; those calls raised
      nothing and the `i`-th returned. */
  lemma ReplayResultsAreTheCallsResults(mirror: Mirror, steps: seq<Step>, i: nat)
    requires i < |Replay(mirror, steps).results|
    ensures Replay(mirror, steps[..i]).raised.None?
    ensures var before := Replay(mirror, steps[..i]).mirror;
            Apply(before, steps[i].call, steps[i].env).Ok?
            && Replay(mirror, steps).results[i] == Apply(before, steps[i].call, steps[i].env).value.ok
  {
    RunResults(mirror, steps, i, ApplyStep);
  }

  /** Over any sequence of calls the mirror only grows, and only the nodes
      the calls name gain or change an entry. */
  lemma {:induction false} ReplayTouchesOnlyNamedNodes(mirror: Mirror, steps: seq<Step>)
    ensures var t := Replay(mirror, steps);
            mirror.Keys <= t.mirror.Keys <= mirror.Keys + Targets(steps)
    ensures var t := Replay(mirror, steps);
            forall n :: n in mirror && n !in Targets(steps) ==> t.mirror[n] == mirror[n]
    decreases |steps|
  {
    if steps != [] && Apply(mirror, steps[0].call, steps[0].env).Ok? {
      var effect := Apply(mirror, steps[0].call, steps[0].env).value;
      ReplayStep(mirror, steps);
      ReplayTouchesOnlyNamedNodes(effect.mirror, steps[1..]);
      assert Targets(steps) == {steps[0].call.node} + Targets(steps[1..]);
    }
  }

  /** Every write request of a sequence addresses a node one of the calls
      names, and that node has an entry in the final mirror. */
  lemma {:induction false} ReplaySendsOnlyToNamedNodes(mirror: Mirror, steps: seq<Step>)
    ensures var t := Replay(mirror, steps);
            forall request :: request in t.sent ==> request.node in Targets(steps) && request.node in t.mirror
    decreases |steps|
  {
    if steps != [] && Apply(mirror, steps[0].call, steps[0].env).Ok? {
      var effect := Apply(mirror, steps[0].call, steps[0].env).value;
      ReplayStep(mirror, steps);
      ReplaySendsOnlyToNamedNodes(effect.mirror, steps[1..]);
      ReplayTouchesOnlyNamedNodes(effect.mirror, steps[1..]);
      assert Targets(steps) == {steps[0].call.node} + Targets(steps[1..]);
    }
  }

  /** A `removeNode` call that finds its node wipeable. */
  predicate IsWipingRemoval(s: Step)
  {
    s.call.RemoveNodeCall? && Wipeable(s.call.node, s.env)
  }

  /** The DELETE requests for the nodes the steps name, in order. */
  function Deletions(steps: seq<Step>): (requests: seq<Request>)
  {
    if steps == [] then [] else [Request(Delete, steps[0].call.node, None)] + Deletions(steps[1..])
  }

  /** Removing nodes one after another, as `removeNodes` does, where each
      `removeNode` finds its node wipeable: one DELETE per call, in order,
      nothing raised, and every removed node left in the mirror with None. */
  lemma {:induction false} RemovingNodesWipesEach(mirror: Mirror, removals: seq<Step>)
    requires forall s :: s in removals ==> IsWipingRemoval(s)
    ensures var t := Replay(mirror, removals);
            t.raised.None?
            && t.sent == Deletions(removals)
            && (forall s :: s in removals ==> s.call.node in t.mirror && t.mirror[s.call.node] == Null)
    decreases |removals|
  {
    if removals != [] {
      var node := removals[0].call.node;
      var tail := removals[1..];
      var deletion := Request(Delete, node, None);
      var first := Apply(mirror, removals[0].call, removals[0].env);
      assert IsWipingRemoval(removals[0]);
      assert first == RemoveNode(mirror, node, removals[0].env);
      assert first.Ok? && first.value.sent == Some(deletion) && first.value.mirror[node] == Null;
      ReplayStep(mirror, removals);
      ReplayTouchesOnlyNamedNodes(first.value.mirror, tail);
      RemovingNodesWipesEach(first.value.mirror, tail);
      var rest := Replay(first.value.mirror, tail);
      var t := Replay(mirror, removals);
      assert t.mirror == rest.mirror && t.raised == rest.raised;
      assert t.sent == [deletion] + rest.sent;
      assert t.sent == Deletions(removals);
      forall s | s in removals
        ensures s.call.node in t.mirror && t.mirror[s.call.node] == Null
      {
        if s !in tail {
          assert s == removals[0];
          if node in Targets(tail) {
            TargetsAreNamedBySomeStep(tail, node);
          }
        }
      }
    }
  }
}
