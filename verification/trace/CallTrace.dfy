/** The call-trace parser: a stack machine that rebuilds a call tree from call and return events. */
module CallTrace {
  import opened Options

  datatype CallNode = CallNode(contractId: string, func: string, children: seq<CallNode>)

  datatype Topic = Symbol(name: string) | NotASymbol

  /** An input line once base64 and XDR are out of the way; `contract` is the printed address. */
  datatype Event =
    | Undecodable
    | Diagnostic(successful: bool, contract: Option<string>, topics: seq<Topic>)

  datatype Action = Call(contractId: string, func: string) | Return

  /** The branches of `parse_call_trace` that decide what an event does; most events do nothing. */
  function Classify(e: Event): Option<Action> {
    if e.Undecodable? || !e.successful || e.topics == [] || !e.topics[0].Symbol? then None
    else if e.topics[0].name == "fn_call" && |e.topics| >= 3 then
      Some(Call(if e.contract.Some? then e.contract.value else "Host",
                if e.topics[2].Symbol? then e.topics[2].name else "unknown"))
    else if e.topics[0].name == "fn_return" then Some(Return)
    else None
  }

  /** What a trace does, with the events that do nothing left out. */
  function Actions(events: seq<Event>): seq<Action> {
    if events == [] then []
    else
      var rest := Actions(events[1..]);
      match Classify(events[0])
      case None => rest
      case Some(a) => [a] + rest
  }

  // ---- The stack machine --------------------------------------------------------------------

  /** The outermost calls that have returned, oldest first, and the open ones, outermost first. */
  datatype Frames = Frames(roots: seq<CallNode>, stack: seq<CallNode>)

  /** A finished call becomes a child of the innermost open one, or an outermost call of its own. */
  function Finish(f: Frames, node: CallNode): Frames {
    if f.stack == [] then f.(roots := f.roots + [node])
    else
      var parent := f.stack[|f.stack| - 1];
      f.(stack := f.stack[..|f.stack| - 1] + [parent.(children := parent.children + [node])])
  }

  function Advance(f: Frames, a: Action): Frames {
    match a
    case Call(contractId, func) => f.(stack := f.stack + [CallNode(contractId, func, [])])
    case Return =>
      if f.stack == [] then f
      else Finish(f.(stack := f.stack[..|f.stack| - 1]), f.stack[|f.stack| - 1])
  }

  function Replay(f: Frames, actions: seq<Action>): Frames
    decreases |actions|
  {
    if actions == [] then f else Replay(Advance(f, actions[0]), actions[1..])
  }

  /** The last outermost call that returned; if none did, the outermost open one. */
  function Result(f: Frames): Option<CallNode> {
    if f.roots != [] then Some(f.roots[|f.roots| - 1])
    else if f.stack != [] then Some(f.stack[0])
    else None
  }

  const NO_FRAMES := Frames([], [])

  function Parse(events: seq<Event>): Option<CallNode> {
    Result(Replay(NO_FRAMES, Actions(events)))
  }

  method ParseCallTrace(events: seq<Event>) returns (root: Option<CallNode>)
    ensures root == Parse(events)
  {
    var stack: seq<CallNode> := [];
    root := None;
    ghost var roots: seq<CallNode> := [];
    for i := 0 to |events|
      invariant Replay(Frames(roots, stack), Actions(events[i..])) == Replay(NO_FRAMES, Actions(events))
      invariant root == if roots == [] then None else Some(roots[|roots| - 1])
    {
      assert events[i..][0] == events[i] && events[i..][1..] == events[i + 1..];
      var action := Classify(events[i]);
      ghost var before := Frames(roots, stack);
      match action {
        case None =>
        case Some(Call(contractId, func)) =>
          stack := stack + [CallNode(contractId, func, [])];
        case Some(Return) =>
          if stack != [] {
            var finished := stack[|stack| - 1];
            stack := stack[..|stack| - 1];
            if stack != [] {
              var parent := stack[|stack| - 1];
              stack := stack[|stack| - 1 := parent.(children := parent.children + [finished])];
            } else {
              root := Some(finished);
              roots := roots + [finished];
            }
          }
      }
      assert action.Some? ==> Frames(roots, stack) == Advance(before, action.value);
    }
    if root.None? && stack != [] {
      root := Some(stack[0]);
    }
  }

  // ---- Parsing inverts flattening -----------------------------------------------------------

  /** The trace of one call: it is entered, its sub-calls run, it returns. */
  function Flatten(t: CallNode): seq<Action>
    decreases t, 1
  {
    [Call(t.contractId, t.func)] + FlattenAll(t.children) + [Return]
  }

  function FlattenAll(ts: seq<CallNode>): seq<Action>
    decreases ts, 0
  {
    if ts == [] then [] else Flatten(ts[0]) + FlattenAll(ts[1..])
  }

  function FinishAll(f: Frames, ts: seq<CallNode>): Frames
    decreases |ts|
  {
    if ts == [] then f else FinishAll(Finish(f, ts[0]), ts[1..])
  }

  lemma {:induction false} ReplayConcat(f: Frames, a: seq<Action>, b: seq<Action>)
    ensures Replay(f, a + b) == Replay(Replay(f, a), b)
    decreases |a|
  {
    if a == [] {
      assert a + b == b;
    } else {
      assert (a + b)[1..] == a[1..] + b;
      ReplayConcat(Advance(f, a[0]), a[1..], b);
    }
  }

  lemma {:induction false} FinishAllInOpenCall(f: Frames, ts: seq<CallNode>)
    requires f.stack != []
    ensures var last := |f.stack| - 1;
      FinishAll(f, ts)
        == f.(stack := f.stack[..last] + [f.stack[last].(children := f.stack[last].children + ts)])
    decreases |ts|
  {
    var last := |f.stack| - 1;
    if ts == [] {
      assert f.stack[last].children + ts == f.stack[last].children;
    } else {
      FinishAllInOpenCall(Finish(f, ts[0]), ts[1..]);
      assert f.stack[last].children + [ts[0]] + ts[1..] == f.stack[last].children + ts;
    }
  }

  lemma {:induction false} FinishAllOutermost(f: Frames, ts: seq<CallNode>)
    requires f.stack == []
    ensures FinishAll(f, ts) == f.(roots := f.roots + ts)
    decreases |ts|
  {
    if ts == [] {
      assert f.roots + ts == f.roots;
    } else {
      FinishAllOutermost(Finish(f, ts[0]), ts[1..]);
      assert f.roots + [ts[0]] + ts[1..] == f.roots + ts;
    }
  }

  /** Wherever it occurs, the trace of a call adds exactly that call to what has finished. */
  lemma {:induction false} ReplayFlatten(f: Frames, t: CallNode)
    ensures Replay(f, Flatten(t)) == Finish(f, t)
    decreases t, 1
  {
    var open := Advance(f, Call(t.contractId, t.func));
    var entry, body := [Call(t.contractId, t.func)], FlattenAll(t.children);
    ReplayConcat(f, entry + body, [Return]);
    ReplayConcat(f, entry, body);
    ReplayFlattenAll(open, t.children);
    FinishAllInOpenCall(open, t.children);
    assert open.stack[..|f.stack|] == f.stack;
    assert [] + t.children == t.children;
    var done := f.stack + [t];
    assert Replay(f, entry + body) == f.(stack := done);
    assert done[..|done| - 1] == f.stack && done[|done| - 1] == t;
    assert Replay(f.(stack := done), [Return]) == Advance(f.(stack := done), Return);
  }

  lemma {:induction false} ReplayFlattenAll(f: Frames, ts: seq<CallNode>)
    ensures Replay(f, FlattenAll(ts)) == FinishAll(f, ts)
    decreases ts, 0
  {
    if ts != [] {
      ReplayConcat(f, Flatten(ts[0]), FlattenAll(ts[1..]));
      ReplayFlatten(f, ts[0]);
      ReplayFlattenAll(Finish(f, ts[0]), ts[1..]);
    }
  }

  /** Round trip: a trace that does what a list of complete calls does, with events that do nothing
      strewn in anywhere, parses to the last of these calls. */
  lemma {:induction false} ParseInvertsFlatten(events: seq<Event>, calls: seq<CallNode>)
    requires calls != [] && Actions(events) == FlattenAll(calls)
    ensures Parse(events) == Some(calls[|calls| - 1])
  {
    ReplayFlattenAll(NO_FRAMES, calls);
    FinishAllOutermost(NO_FRAMES, calls);
    assert [] + calls == calls;
    assert Replay(NO_FRAMES, Actions(events)) == Frames(calls, []);
  }

  lemma {:induction false} ParseInvertsFlattenOfOne(events: seq<Event>, t: CallNode)
    requires Actions(events) == Flatten(t)
    ensures Parse(events) == Some(t)
  {
    assert FlattenAll([t]) == Flatten(t) + FlattenAll([]);
    ParseInvertsFlatten(events, [t]);
  }

  /** A call boundary as the host emits it, on entry and on exit: the topics are its name, the address,
      which is no symbol, and the function; the event belongs to the called contract. */
  function Boundary(name: string, t: CallNode): Event {
    Diagnostic(true, Some(t.contractId), [Symbol(name), NotASymbol, Symbol(t.func)])
  }

  /** The events of one call. */
  function HostEvents(t: CallNode): seq<Event>
    decreases t, 1
  {
    [Boundary("fn_call", t)] + HostEventsAll(t.children) + [Boundary("fn_return", t)]
  }

  function HostEventsAll(ts: seq<CallNode>): seq<Event>
    decreases ts, 0
  {
    if ts == [] then [] else HostEvents(ts[0]) + HostEventsAll(ts[1..])
  }

  lemma {:induction false} ActionsConcat(a: seq<Event>, b: seq<Event>)
    ensures Actions(a + b) == Actions(a) + Actions(b)
    decreases |a|
  {
    if a == [] {
      assert a + b == b;
    } else {
      assert (a + b)[1..] == a[1..] + b;
      ActionsConcat(a[1..], b);
    }
  }

  lemma BoundariesClassify(t: CallNode)
    ensures Actions([Boundary("fn_call", t)]) == [Call(t.contractId, t.func)]
    ensures Actions([Boundary("fn_return", t)]) == [Return]
  {
    var enter, leave := Boundary("fn_call", t), Boundary("fn_return", t);
    assert Classify(enter) == Some(Call(t.contractId, t.func)) && Classify(leave) == Some(Return);
    assert [enter][1..] == [] && [leave][1..] == [];
  }

  lemma {:induction false} ActionsOfHostEvents(t: CallNode)
    ensures Actions(HostEvents(t)) == Flatten(t)
    decreases t, 1
  {
    var enter, leave := [Boundary("fn_call", t)], [Boundary("fn_return", t)];
    BoundariesClassify(t);
    ActionsOfHostEventsAll(t.children);
    ActionsConcat(enter + HostEventsAll(t.children), leave);
    ActionsConcat(enter, HostEventsAll(t.children));
  }

  lemma {:induction false} ActionsOfHostEventsAll(ts: seq<CallNode>)
    ensures Actions(HostEventsAll(ts)) == FlattenAll(ts)
    decreases ts, 0
  {
    if ts != [] {
      ActionsOfHostEvents(ts[0]);
      ActionsOfHostEventsAll(ts[1..]);
      ActionsConcat(HostEvents(ts[0]), HostEventsAll(ts[1..]));
    }
  }

  /** Round trip through the events themselves: what the host emits for a call tree parses to that tree. */
  lemma {:induction false} HostTraceParses(t: CallNode)
    ensures Parse(HostEvents(t)) == Some(t)
  {
    ActionsOfHostEvents(t);
    ParseInvertsFlattenOfOne(HostEvents(t), t);
  }

  // ---- What single events do ----------------------------------------------------------------

  /** Events that are not decodable, not of a successful call, or no call boundary with enough topics. */
  predicate SaysNothing(e: Event) {
    || e.Undecodable?
    || !e.successful
    || e.topics == []
    || e.topics[0] !in {Symbol("fn_call"), Symbol("fn_return")}
    || (e.topics[0] == Symbol("fn_call") && |e.topics| < 3)
  }

  /** Such events may be added or removed anywhere; every other one is a call or a return. */
  lemma EventsThatSayNothing(before: seq<Event>, e: Event, after: seq<Event>)
    ensures SaysNothing(e) ==> Parse(before + [e] + after) == Parse(before + after)
    ensures !SaysNothing(e) ==> |Actions(before + [e] + after)| == |Actions(before + after)| + 1
  {
    assert [e][1..] == [];
    assert Classify(e).None? <==> SaysNothing(e);
    ActionsConcat(before + [e], after);
    ActionsConcat(before, [e]);
    ActionsConcat(before, after);
    assert Actions(before) + [] == Actions(before);
  }

  /** A call from its entry to its return is named by the entry alone: by the contract of the event, or
      "Host", and by the third topic, or "unknown"; all else the two events carry is ignored. */
  lemma CallsAreNamedByTheirEntry(enter: Event, leave: Event, children: seq<CallNode>)
    requires !SaysNothing(enter) && enter.topics[0] == Symbol("fn_call")
    requires !SaysNothing(leave) && leave.topics[0] == Symbol("fn_return")
    ensures Parse([enter] + HostEventsAll(children) + [leave]) == Some(CallNode(
      if enter.contract == None then "Host" else enter.contract.value,
      if enter.topics[2] == NotASymbol then "unknown" else enter.topics[2].name,
      children))
  {
    assert [enter][1..] == [] && [leave][1..] == [];
    var t := CallNode(
      if enter.contract == None then "Host" else enter.contract.value,
      if enter.topics[2] == NotASymbol then "unknown" else enter.topics[2].name,
      children);
    assert Classify(enter) == Some(Call(t.contractId, t.func)) && Classify(leave) == Some(Return);
    ActionsOfHostEventsAll(children);
    ActionsConcat([enter] + HostEventsAll(children), [leave]);
    ActionsConcat([enter], HostEventsAll(children));
    ParseInvertsFlattenOfOne([enter] + HostEventsAll(children) + [leave], t);
  }

  // ---- Flattening inverts parsing -----------------------------------------------------------

  /** The trace of calls that are still open. */
  function FlattenOpen(stack: seq<CallNode>): seq<Action>
    decreases |stack|
  {
    if stack == [] then []
    else
      var last := stack[|stack| - 1];
      FlattenOpen(stack[..|stack| - 1]) + [Call(last.contractId, last.func)] + FlattenAll(last.children)
  }

  function Unparse(f: Frames): seq<Action> {
    FlattenAll(f.roots) + FlattenOpen(f.stack)
  }

  lemma {:induction false} ReplayOpen(roots: seq<CallNode>, stack: seq<CallNode>)
    ensures Replay(Frames(roots, []), FlattenOpen(stack)) == Frames(roots, stack)
    decreases |stack|
  {
    if stack != [] {
      var front, last := stack[..|stack| - 1], stack[|stack| - 1];
      var entry, body := [Call(last.contractId, last.func)], FlattenAll(last.children);
      var grown := front + [CallNode(last.contractId, last.func, [])];
      ReplayOpen(roots, front);
      ReplayConcat(Frames(roots, []), FlattenOpen(front) + entry, body);
      ReplayConcat(Frames(roots, []), FlattenOpen(front), entry);
      assert Replay(Frames(roots, front), entry) == Advance(Frames(roots, front), entry[0]) == Frames(roots, grown);
      ReplayFlattenAll(Frames(roots, grown), last.children);
      FinishAllInOpenCall(Frames(roots, grown), last.children);
      assert grown[..|grown| - 1] == front && [] + last.children == last.children;
      assert stack == front + [last];
    }
  }

  /** A trace that breaks off: complete outermost calls `roots`, then calls still open, outermost first,
      with the sub-calls that have returned. It parses to the last complete outermost call; without one,
      to the outermost open call, with those of its sub-calls that have returned. */
  lemma {:induction false} UnfinishedTraceParses(events: seq<Event>, roots: seq<CallNode>, stack: seq<CallNode>)
    requires Actions(events) == FlattenAll(roots) + FlattenOpen(stack)
    ensures Parse(events) ==
      if roots != [] then Some(roots[|roots| - 1]) else if stack != [] then Some(stack[0]) else None
  {
    ReplayConcat(NO_FRAMES, FlattenAll(roots), FlattenOpen(stack));
    ReplayFlattenAll(NO_FRAMES, roots);
    FinishAllOutermost(NO_FRAMES, roots);
    assert [] + roots == roots;
    assert Replay(NO_FRAMES, FlattenAll(roots)) == Frames(roots, []);
    ReplayOpen(roots, stack);
  }

  /** A trace without the returns that match no call, when `depth` calls are open. */
  function Matched(depth: nat, actions: seq<Action>): seq<Action>
    decreases |actions|
  {
    if actions == [] then []
    else if actions[0].Call? then [actions[0]] + Matched(depth + 1, actions[1..])
    else if depth == 0 then Matched(0, actions[1..])
    else [Return] + Matched(depth - 1, actions[1..])
  }

  lemma {:induction false} FlattenAllConcat(a: seq<CallNode>, b: seq<CallNode>)
    ensures FlattenAll(a + b) == FlattenAll(a) + FlattenAll(b)
    decreases |a|
  {
    if a == [] {
      assert a + b == b;
    } else {
      assert (a + b)[1..] == a[1..] + b;
      FlattenAllConcat(a[1..], b);
    }
  }

  lemma FlattenAllOne(t: CallNode)
    ensures FlattenAll([t]) == Flatten(t)
  {
    assert FlattenAll([t]) == Flatten(t) + FlattenAll([]);
  }

  lemma UnparseFinish(f: Frames, node: CallNode)
    ensures Unparse(Finish(f, node)) == Unparse(f) + Flatten(node)
  {
    FlattenAllOne(node);
    if f.stack == [] {
      FlattenAllConcat(f.roots, [node]);
    } else {
      var front, parent := f.stack[..|f.stack| - 1], f.stack[|f.stack| - 1];
      FlattenAllConcat(parent.children, [node]);
      var stack' := front + [parent.(children := parent.children + [node])];
      assert stack'[..|stack'| - 1] == front;
      assert Finish(f, node).stack == stack';
    }
  }

  lemma UnparseAdvance(f: Frames, a: Action)
    ensures Unparse(Advance(f, a)) == Unparse(f) + (if a.Return? && f.stack == [] then [] else [a])
  {
    if a.Call? {
      var stack' := Advance(f, a).stack;
      assert stack'[..|stack'| - 1] == f.stack;
    } else if f.stack != [] {
      var front, last := f.stack[..|f.stack| - 1], f.stack[|f.stack| - 1];
      UnparseFinish(f.(stack := front), last);
    }
  }

  lemma {:induction false} UnparseReplay(f: Frames, actions: seq<Action>)
    ensures Unparse(Replay(f, actions)) == Unparse(f) + Matched(|f.stack|, actions)
    decreases |actions|
  {
    if actions != [] {
      UnparseAdvance(f, actions[0]);
      var kept := if actions[0].Return? && f.stack == [] then [] else [actions[0]];
      assert Matched(|f.stack|, actions) == kept + Matched(|Advance(f, actions[0]).stack|, actions[1..]);
      UnparseReplay(Advance(f, actions[0]), actions[1..]);
    }
  }

  /** Round trip on every trace, well formed or not: the finished and the open calls together are the
      trace, action by action, except for the returns that match no call. */
  lemma NothingIsLost(events: seq<Event>)
    ensures Unparse(Replay(NO_FRAMES, Actions(events))) == Matched(0, Actions(events))
  {
    UnparseReplay(NO_FRAMES, Actions(events));
  }

  // ---- Every call is one node ---------------------------------------------------------------

  type Label = (string, string)

  function Labels(actions: seq<Action>): seq<Label> {
    if actions == [] then []
    else (if actions[0].Call? then [(actions[0].contractId, actions[0].func)] else []) + Labels(actions[1..])
  }

  function Preorder(t: CallNode): seq<Label>
    decreases t, 1
  {
    [(t.contractId, t.func)] + PreorderAll(t.children)
  }

  function PreorderAll(ts: seq<CallNode>): seq<Label>
    decreases ts, 0
  {
    if ts == [] then [] else Preorder(ts[0]) + PreorderAll(ts[1..])
  }

  lemma LabelsCons(a: Action, rest: seq<Action>)
    ensures Labels([a] + rest) == (if a.Call? then [(a.contractId, a.func)] else []) + Labels(rest)
  {
    assert ([a] + rest)[1..] == rest;
  }

  lemma {:induction false} LabelsConcat(a: seq<Action>, b: seq<Action>)
    ensures Labels(a + b) == Labels(a) + Labels(b)
    decreases |a|
  {
    if a == [] {
      assert a + b == b;
    } else {
      LabelsConcat(a[1..], b);
      LabelsCons(a[0], a[1..] + b);
      assert a + b == [a[0]] + (a[1..] + b);
    }
  }

  lemma {:induction false} LabelsOfFlatten(t: CallNode)
    ensures Labels(Flatten(t)) == Preorder(t)
    decreases t, 1
  {
    LabelsOfFlattenAll(t.children);
    var entry := [Call(t.contractId, t.func)];
    LabelsConcat(entry + FlattenAll(t.children), [Return]);
    LabelsConcat(entry, FlattenAll(t.children));
  }

  lemma {:induction false} LabelsOfFlattenAll(ts: seq<CallNode>)
    ensures Labels(FlattenAll(ts)) == PreorderAll(ts)
    decreases ts, 0
  {
    if ts != [] {
      LabelsOfFlatten(ts[0]);
      LabelsOfFlattenAll(ts[1..]);
      LabelsConcat(Flatten(ts[0]), FlattenAll(ts[1..]));
    }
  }

  lemma {:induction false} PreorderAllConcat(a: seq<CallNode>, b: seq<CallNode>)
    ensures PreorderAll(a + b) == PreorderAll(a) + PreorderAll(b)
    decreases |a|
  {
    if a == [] {
      assert a + b == b;
    } else {
      assert (a + b)[1..] == a[1..] + b;
      PreorderAllConcat(a[1..], b);
    }
  }

  lemma {:induction false} LabelsOfOpen(stack: seq<CallNode>)
    ensures Labels(FlattenOpen(stack)) == PreorderAll(stack)
    decreases |stack|
  {
    if stack != [] {
      var front, last := stack[..|stack| - 1], stack[|stack| - 1];
      var entry := [Call(last.contractId, last.func)];
      LabelsOfOpen(front);
      LabelsOfFlattenAll(last.children);
      LabelsConcat(FlattenOpen(front) + entry, FlattenAll(last.children));
      LabelsConcat(FlattenOpen(front), entry);
      PreorderAllConcat(front, [last]);
      assert PreorderAll([last]) == Preorder(last) + PreorderAll([]);
      assert stack == front + [last];
    }
  }

  lemma {:induction false} LabelsOfMatched(depth: nat, actions: seq<Action>)
    ensures Labels(Matched(depth, actions)) == Labels(actions)
    decreases |actions|
  {
    if actions != [] {
      var a, rest := actions[0], actions[1..];
      var depth' := if a.Call? then depth + 1 else if depth == 0 then 0 else depth - 1;
      LabelsOfMatched(depth', rest);
      LabelsCons(a, Matched(depth', rest));
    }
  }

  /** Every accepted call of a trace is one node, in the order of the calls, of exactly one of: an
      outermost call that was superseded, the last one (which is the result), or a call left open. */
  lemma EveryCallIsOneNode(events: seq<Event>)
    ensures var f := Replay(NO_FRAMES, Actions(events));
      Labels(Actions(events)) == PreorderAll(f.roots) + PreorderAll(f.stack)
  {
    var f := Replay(NO_FRAMES, Actions(events));
    NothingIsLost(events);
    LabelsOfMatched(0, Actions(events));
    LabelsConcat(FlattenAll(f.roots), FlattenOpen(f.stack));
    LabelsOfFlattenAll(f.roots);
    LabelsOfOpen(f.stack);
  }

  // ---- Counting and depth -------------------------------------------------------------------

  function Max(a: nat, b: nat): nat {
    if a >= b then a else b
  }

  /** `count_nodes` */
  function CountNodes(t: CallNode): nat
    decreases t, 1
  {
    1 + CountAll(t.children)
  }

  function CountAll(ts: seq<CallNode>): nat
    decreases ts, 0
  {
    if ts == [] then 0 else CountNodes(ts[0]) + CountAll(ts[1..])
  }

  /** `node_depth` */
  function NodeDepth(t: CallNode): nat
    decreases t, 1
  {
    if t.children == [] then 1 else 1 + DepthOfAll(t.children)
  }

  function DepthOfAll(ts: seq<CallNode>): nat
    decreases ts, 0
  {
    if ts == [] then 0 else Max(NodeDepth(ts[0]), DepthOfAll(ts[1..]))
  }

  /** The greatest height of the stack while a trace is replayed. */
  function PeakHeight(f: Frames, actions: seq<Action>): nat
    decreases |actions|
  {
    if actions == [] then |f.stack|
    else Max(|f.stack|, PeakHeight(Advance(f, actions[0]), actions[1..]))
  }

  lemma {:induction false} PeakConcat(f: Frames, a: seq<Action>, b: seq<Action>)
    ensures PeakHeight(f, a + b) == Max(PeakHeight(f, a), PeakHeight(Replay(f, a), b))
    decreases |a|
  {
    if a == [] {
      assert a + b == b;
    } else {
      assert (a + b)[1..] == a[1..] + b;
      PeakConcat(Advance(f, a[0]), a[1..], b);
    }
  }

  lemma {:induction false} PeakOfFlatten(f: Frames, t: CallNode)
    ensures PeakHeight(f, Flatten(t)) == |f.stack| + NodeDepth(t)
    decreases t, 1
  {
    var entry, body := [Call(t.contractId, t.func)], FlattenAll(t.children);
    var open := Advance(f, entry[0]);
    PeakConcat(f, entry + body, [Return]);
    PeakConcat(f, entry, body);
    ReplayConcat(f, entry, body);
    PeakOfFlattenAll(open, t.children);
    ReplayFlattenAll(open, t.children);
    FinishAllInOpenCall(open, t.children);
  }

  lemma {:induction false} PeakOfFlattenAll(f: Frames, ts: seq<CallNode>)
    ensures PeakHeight(f, FlattenAll(ts)) == |f.stack| + DepthOfAll(ts)
    decreases ts, 0
  {
    if ts != [] {
      PeakOfFlatten(f, ts[0]);
      ReplayFlatten(f, ts[0]);
      PeakOfFlattenAll(Finish(f, ts[0]), ts[1..]);
      PeakConcat(f, Flatten(ts[0]), FlattenAll(ts[1..]));
    }
  }

  lemma {:induction false} CountIsLabels(t: CallNode)
    ensures CountNodes(t) == |Preorder(t)|
    decreases t, 1
  {
    CountAllIsLabels(t.children);
  }

  lemma {:induction false} CountAllIsLabels(ts: seq<CallNode>)
    ensures CountAll(ts) == |PreorderAll(ts)|
    decreases ts, 0
  {
    if ts != [] {
      CountIsLabels(ts[0]);
      CountAllIsLabels(ts[1..]);
    }
  }

  /** On the trace of one call tree, `max_depth` is the parser's peak stack height and `total_calls`
      the number of call events. */
  lemma DepthAndCountOfATrace(t: CallNode)
    ensures PeakHeight(NO_FRAMES, Flatten(t)) == NodeDepth(t)
    ensures |Labels(Flatten(t))| == CountNodes(t)
  {
    PeakOfFlatten(NO_FRAMES, t);
    LabelsOfFlatten(t);
    CountIsLabels(t);
  }
}
