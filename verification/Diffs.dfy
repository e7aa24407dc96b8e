/** Differences as comparison records them (stg.h): Result collects them while two nodes are examined. */
module Diffs {
  import opened Wrappers
  import opened Graph

  /** Two nodes, or one that was removed or added. */
  datatype Comparison = Comparison(first: Option<Id>, second: Option<Id>)

  function Pair(id1: Id, id2: Id): Comparison {
    Comparison(Some(id1), Some(id2))
  }

  function OneSided(node: Id, added: bool): Comparison {
    if added then Comparison(None, Some(node)) else Comparison(Some(node), None)
  }

  predicate TwoSided(c: Comparison) {
    c.first.Some? && c.second.Some?
  }

  /** The attribute values that diffs mention. */
  datatype Value =
    | Number(int)
    | Text(string)
    | Flag(bool)
    | EncodingValue(Encoding)
    | InheritanceValue(Inheritance)
    | MethodKindValue(MethodKind)
    | SymbolTypeValue(SymbolType)
    | BindingValue(Binding)
    | VisibilityValue(Visibility)

  datatype Label = Attribute(string) | Enumerator(string)

  /** What the text of a detail says. The wording is left open. */
  datatype DetailText =
    | Changed(attribute: Label, before: Value, after: Value)
    | AttributeRemoved(attribute: Label, value: Value)
    | AttributeAdded(attribute: Label, value: Value)
    | QualifierRemoved(Qualifier)
    | QualifierAdded(Qualifier)
    | Declared(defined1: bool, defined2: bool)
    | EnumeratorRemoved(name: string, number: int)
    | EnumeratorAdded(name: string, number: int)
    | Edge(string)
    | ParameterEdge(index: nat, name1: string, name2: string)
    | ExtraParameter(index: nat, name: string)

  datatype DiffDetail = DiffDetail(text: DetailText, edge: Option<Comparison>)

  datatype Diff = Diff(holdsChanges: bool, hasChanges: bool, details: seq<DiffDetail>) {
    function Add(text: DetailText, edge: Option<Comparison>): Diff {
      this.(details := details + [DiffDetail(text, edge)])
    }
  }

  const NO_DIFF := Diff(false, false, [])

  /** The things that can happen, in order, while two nodes are examined: a difference of their own, an
      edge to a removed or added node, or the comparison of two children. */
  datatype Step =
    | NodeStep(text: DetailText)
    | GoneStep(text: DetailText, edge: Comparison)
    | ChildStep(text: DetailText, edge: Comparison)

  /** All that the examination of a pair does. */
  datatype Script = Script(holdsChanges: bool, incomparable: bool, steps: seq<Step>) {
    function Then(more: seq<Step>): Script {
      this.(steps := steps + more)
    }
  }

  const NOTHING_DONE := Script(false, false, [])

  /** A step with the response to it, which matters for children: whether they were held equal, and
      whether a comparison was returned. */
  datatype Event = Event(step: Step, equals: bool, shown: bool)

  ghost function Steps(events: seq<Event>): seq<Step> {
    seq(|events|, k requires 0 <= k < |events| => events[k].step)
  }

  /** The log of steps that are not about children. */
  ghost function Noted(steps: seq<Step>): seq<Event> {
    seq(|steps|, k requires 0 <= k < |steps| => Event(steps[k], false, true))
  }

  ghost function EventDetail(e: Event): seq<DiffDetail> {
    match e.step
    case NodeStep(text) => [DiffDetail(text, None)]
    case GoneStep(text, edge) => [DiffDetail(text, Some(edge))]
    case ChildStep(text, edge) => if e.shown then [DiffDetail(text, Some(edge))] else []
  }

  ghost function EventDetails(events: seq<Event>): seq<DiffDetail> {
    if events == [] then []
    else EventDetails(events[..|events| - 1]) + EventDetail(events[|events| - 1])
  }

  lemma EventDetailsAppend(events: seq<Event>, e: Event)
    ensures EventDetails(events + [e]) == EventDetails(events) + EventDetail(e)
    ensures Steps(events + [e]) == Steps(events) + [e.step]
  {
  }

  /** What a result says of a log: nodes are equal if nothing but equal children was met, and the diff
      tells the whole log. */
  ghost predicate Summarises(equals: bool, diff: Diff, incomparable: bool, events: seq<Event>) {
    && (equals <==> !incomparable && forall k :: 0 <= k < |events| ==> events[k].step.ChildStep? && events[k].equals)
    && (diff.hasChanges <==> incomparable || exists k :: 0 <= k < |events| && events[k].step.NodeStep?)
    && diff.details == EventDetails(events)
  }

  /** The summary of a log, after one more event. */
  lemma OneMoreEvent(equals: bool, diff: Diff, incomparable: bool, events: seq<Event>, e: Event)
    requires Summarises(equals, diff, incomparable, events)
    ensures Summarises(equals && e.step.ChildStep? && e.equals,
                       diff.(hasChanges := diff.hasChanges || e.step.NodeStep?,
                             details := diff.details + EventDetail(e)),
                       incomparable, events + [e])
    ensures Steps(events + [e]) == Steps(events) + [e.step]
  {
    EventDetailsAppend(events, e);
    hide EventDetails;
    var more := events + [e];
    assert more[|events|] == e && more[..|events|] == events;
    assert forall k :: 0 <= k < |events| ==> more[k] == events[k];
  }

  /** The steps for an attribute that may have changed. */
  function AttributeSteps(attribute: Label, before: Value, after: Value): (steps: seq<Step>)
    ensures forall step :: step in steps ==> step.NodeStep?
  {
    if before != after then [NodeStep(Changed(attribute, before, after))] else []
  }

  function OptionalAttributeSteps(attribute: Label, before: Option<Value>, after: Option<Value>): (steps: seq<Step>)
    ensures forall step :: step in steps ==> step.NodeStep?
  {
    match (before, after)
    case (Some(x), Some(y)) => AttributeSteps(attribute, x, y)
    case (Some(x), None) => [NodeStep(AttributeRemoved(attribute, x))]
    case (None, Some(y)) => [NodeStep(AttributeAdded(attribute, y))]
    case (None, None) => []
  }

  /** The result of comparing two nodes, under construction. The ghost fields log what has happened. */
  class Result {
    var equals: bool
    var diff: Diff
    ghost var incomparable: bool
    ghost var events: seq<Event>

    ghost predicate Valid()
      reads this
    {
      Summarises(equals, diff, incomparable, events)
    }

    /** What has been done so far. */
    ghost function Log(): Script
      reads this
    {
      Script(diff.holdsChanges, incomparable, Steps(events))
    }

    constructor ()
      ensures Valid() && events == [] && !incomparable && !diff.holdsChanges
    {
      equals, diff := true, NO_DIFF;
      incomparable, events := false, [];
    }

    /** Makes the script incomparable. No step is taken. */
    method MarkIncomparable()
      requires Valid()
      modifies this
      ensures Valid() && incomparable && !equals && diff.hasChanges
      ensures events == old(events) && diff.holdsChanges == old(diff.holdsChanges)
    {
      equals := false;
      diff := diff.(hasChanges := true);
      incomparable := true;
    }

    /** Takes a step that finds a difference of the nodes themselves. */
    method AddNodeDiff(text: DetailText)
      requires Valid()
      modifies this
      ensures Valid() && Log() == old(Log()).Then([NodeStep(text)])
      ensures events == old(events) + Noted([NodeStep(text)])
    {
      hide Summarises;
      OneMoreEvent(equals, diff, incomparable, events, Event(NodeStep(text), false, true));
      equals := false;
      diff := diff.(hasChanges := true);
      diff := diff.Add(text, None);
      events := events + [Event(NodeStep(text), false, true)];
    }

    /** Takes a step if the values differ, and none otherwise. */
    method MaybeAddNodeDiff(attribute: Label, before: Value, after: Value)
      requires Valid()
      modifies this
      ensures Valid() && Log() == old(Log()).Then(AttributeSteps(attribute, before, after))
      ensures events == old(events) + Noted(AttributeSteps(attribute, before, after))
    {
      if before != after {
        AddNodeDiff(Changed(attribute, before, after));
      }
    }

    /** Takes a step if only one value is there, or if both are and differ. */
    method MaybeAddOptionalNodeDiff(attribute: Label, before: Option<Value>, after: Option<Value>)
      requires Valid()
      modifies this
      ensures Valid() && Log() == old(Log()).Then(OptionalAttributeSteps(attribute, before, after))
      ensures events == old(events) + Noted(OptionalAttributeSteps(attribute, before, after))
    {
      if before.Some? && after.Some? {
        MaybeAddNodeDiff(attribute, before.value, after.value);
      } else if before.Some? {
        AddNodeDiff(AttributeRemoved(attribute, before.value));
      } else if after.Some? {
        AddNodeDiff(AttributeAdded(attribute, after.value));
      }
    }

    /** Takes a step to a node that only one side has: a difference, but not of the nodes themselves. */
    method AddEdgeDiff(text: DetailText, comparison: Comparison)
      requires Valid()
      modifies this
      ensures Valid() && Log() == old(Log()).Then([GoneStep(text, comparison)])
      ensures events == old(events) + Noted([GoneStep(text, comparison)])
    {
      hide Summarises;
      OneMoreEvent(equals, diff, incomparable, events, Event(GoneStep(text, comparison), false, true));
      equals := false;
      diff := diff.Add(text, Some(comparison));
      events := events + [Event(GoneStep(text, comparison), false, true)];
    }

    /** Takes a step to a pair of children, whose verdict so far is given. The ghost argument is that pair. */
    method MaybeAddEdgeDiff(
        text: DetailText, childEquals: bool, comparison: Option<Comparison>, ghost child: Comparison)
      requires Valid() && (comparison == None || comparison == Some(child))
      modifies this
      ensures Valid() && Log() == old(Log()).Then([ChildStep(text, child)])
      ensures events == old(events) + [Event(ChildStep(text, child), childEquals, comparison.Some?)]
    {
      hide Summarises;
      OneMoreEvent(equals, diff, incomparable, events, Event(ChildStep(text, child), childEquals, comparison.Some?));
      equals := equals && childEquals;
      if comparison.Some? {
        diff := diff.Add(text, comparison);
      } else {
        assert diff.details + [] == diff.details;
      }
      events := events + [Event(ChildStep(text, child), childEquals, comparison.Some?)];
    }

    method HoldChanges(holds: bool)
      requires Valid()
      modifies this
      ensures Valid() && diff.holdsChanges == holds
      ensures events == old(events) && incomparable == old(incomparable)
    {
      diff := diff.(holdsChanges := holds);
    }
  }
}
