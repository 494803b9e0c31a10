/** What the compacted form of a provider turn keeps: every text, call and usage report,
    in order. */
module Compaction {
  import opened Base
  import opened ModelResult

  // -------------------------------------------------------------------------- calls

  /** The calls of a turn are those of its parts, in order. */
  lemma {:induction false} CallsConcat(a: seq<ToolEvent>, b: seq<ToolEvent>)
    ensures CallsOf(a + b) == CallsOf(a) + CallsOf(b)
    decreases |b|
  {
    if b == [] {
      assert a + b == a;
    } else {
      assert Init(a + b) == a + Init(b) && Last(a + b) == Last(b);
      CallsConcat(a, Init(b));
    }
  }

  lemma CallsOfOne(event: ToolEvent)
    ensures CallsOf([event]) == if event.Call? then [event.call] else []
  {
    assert Init([event]) == [];
  }

  /** The calls in retained content, first to last. */
  function CallsIn(content: seq<Content>): seq<ToolCall> {
    if content == [] then []
    else (if content[0].CallContent? then [content[0].call] else []) + CallsIn(content[1..])
  }

  lemma {:induction false} CallsInConcat(a: seq<Content>, b: seq<Content>)
    ensures CallsIn(a + b) == CallsIn(a) + CallsIn(b)
  {
    if a == [] {
      assert a + b == b;
    } else {
      var first := if a[0].CallContent? then [a[0].call] else [];
      assert (a + b)[1..] == a[1..] + b && (a + b)[0] == a[0];
      CallsInConcat(a[1..], b);
      Associates(first, CallsIn(a[1..]), CallsIn(b));
    }
  }

  lemma CallsInOne(item: Content)
    ensures CallsIn([item]) == if item.CallContent? then [item.call] else []
  {
    assert [item][1..] == [];
  }

  lemma {:induction false} ReasoningKeepsCalls(content: seq<Content>, text: string)
    ensures CallsIn(AppendReasoning(content, text)) == CallsIn(content)
  {
    if content != [] {
      assert AppendReasoning(content, text)[1..] == AppendReasoning(content[1..], text);
      ReasoningKeepsCalls(content[1..], text);
    }
  }

  lemma GrownCalls(content: seq<Content>, raw: bool, event: ToolEvent)
    ensures CallsIn(Grown(content, raw, event)) == CallsIn(content) + if event.Call? then [event.call] else []
  {
    match event
    case Call(call) =>
      CallsInConcat(content, [CallContent(call)]);
      CallsInOne(CallContent(call));
    case Fragment(Assistant, text) =>
      if content != [] && Last(content).TextContent? {
        var grown := TextContent(Last(content).text + text);
        assert content == Init(content) + [Last(content)];
        CallsInConcat(Init(content), [Last(content)]);
        CallsInConcat(Init(content), [grown]);
        CallsInOne(Last(content));
        CallsInOne(grown);
      } else {
        CallsInConcat(content, [TextContent(text)]);
        CallsInOne(TextContent(text));
      }
    case Fragment(ReasoningRaw, text) =>
      if raw {
        ReasoningKeepsCalls(content, text);
      } else {
        CallsInConcat(content, [ReasoningContent(text)]);
        CallsInOne(ReasoningContent(text));
      }
    case _ =>
  }

  /** The projected calls are the call items of the retained content, in their order. */
  lemma {:induction false} CallsAreRetained(events: seq<ToolEvent>)
    ensures CallsIn(ContentOf(events)) == CallsOf(events)
  {
    if events != [] {
      CallsAreRetained(Init(events));
      GrownCalls(ContentOf(Init(events)), HasRaw(Init(events)), Last(events));
    }
  }

  // ------------------------------------------------------------- the compacted form

  lemma {:induction false} SlotOfFilled(events: seq<ToolEvent>, slot: Slot)
    ensures SlotOf(Filled(events, slot)) == slot
  {
  }

  /** Events in distinct places: no kind of text and no usage twice. */
  ghost predicate Apart(events: seq<ToolEvent>) {
    forall i, j :: 0 <= i < j < |events| && !events[i].Call? ==> SlotOf(events[i]) != SlotOf(events[j])
  }

  lemma CompactedApart(events: seq<ToolEvent>)
    ensures Apart(Compacted(events))
  {
    SlotsAreDistinct(events);
  }

  lemma {:induction false} SlotsOfApart(events: seq<ToolEvent>)
    requires Apart(events)
    ensures |Slots(events)| == |events| && forall i :: 0 <= i < |events| ==> Slots(events)[i] == SlotOf(events[i])
  {
    if events != [] {
      SlotsOfApart(Init(events));
    }
  }

  /** The place of a kind holds all there is of it. */
  lemma {:induction false} TextOfApart(events: seq<ToolEvent>, kind: TextKind)
    requires Apart(events)
    ensures forall i :: 0 <= i < |events| && SlotOf(events[i]) == TextSlot(kind) ==> TextOf(events, kind) == events[i].text
    ensures (forall i :: 0 <= i < |events| ==> SlotOf(events[i]) != TextSlot(kind)) ==> TextOf(events, kind) == ""
  {
    if events != [] {
      TextOfApart(Init(events), kind);
    }
  }

  lemma {:induction false} UsageOfApart(events: seq<ToolEvent>)
    requires Apart(events)
    ensures forall i :: 0 <= i < |events| && events[i].Used? ==> UsageOf(events) == events[i].usage
    ensures (forall i :: 0 <= i < |events| ==> !events[i].Used?) ==> UsageOf(events) == NO_USAGE
  {
    if events != [] {
      UsageOfApart(Init(events));
    }
  }

  lemma {:induction false} NoSlotNothing(events: seq<ToolEvent>, kind: TextKind)
    ensures TextSlot(kind) !in Slots(events) ==> TextOf(events, kind) == ""
    ensures UsageSlot !in Slots(events) ==> UsageOf(events) == NO_USAGE
  {
    if events != [] {
      NoSlotNothing(Init(events), kind);
    }
  }

  lemma SlotPlace(events: seq<ToolEvent>, slot: Slot) returns (i: nat)
    requires slot in Slots(events)
    ensures i < |Compacted(events)| && Compacted(events)[i] == Filled(events, slot)
  {
    i :| i < |Slots(events)| && Slots(events)[i] == slot;
  }

  lemma CompactedKeepsText(events: seq<ToolEvent>, kind: TextKind)
    ensures TextOf(Compacted(events), kind) == TextOf(events, kind)
  {
    CompactedApart(events);
    TextOfApart(Compacted(events), kind);
    if TextSlot(kind) in Slots(events) {
      var i := SlotPlace(events, TextSlot(kind));
      assert SlotOf(Compacted(events)[i]) == TextSlot(kind);
    } else {
      NoSlotNothing(events, kind);
      forall i | 0 <= i < |Compacted(events)| ensures SlotOf(Compacted(events)[i]) != TextSlot(kind) {
        SlotOfFilled(events, Slots(events)[i]);
      }
    }
  }

  lemma CompactedKeepsUsage(events: seq<ToolEvent>)
    ensures UsageOf(Compacted(events)) == UsageOf(events)
  {
    CompactedApart(events);
    UsageOfApart(Compacted(events));
    if UsageSlot in Slots(events) {
      var i := SlotPlace(events, UsageSlot);
    } else {
      NoSlotNothing(events, Assistant);
      forall i | 0 <= i < |Compacted(events)| ensures !Compacted(events)[i].Used? {
        SlotOfFilled(events, Slots(events)[i]);
      }
    }
  }

  lemma UpdateKeepsCalls(events: seq<ToolEvent>, at: nat, event: ToolEvent)
    requires at < |events| && !events[at].Call? && !event.Call?
    ensures CallsOf(events[at := event]) == CallsOf(events)
  {
    var before, after := events[..at], events[at + 1..];
    assert events == before + [events[at]] + after && events[at := event] == before + [event] + after;
    CallsConcat(before + [events[at]], after);
    CallsConcat(before + [event], after);
    CallsConcat(before, [events[at]]);
    CallsConcat(before, [event]);
    CallsOfOne(events[at]);
    CallsOfOne(event);
  }

  lemma {:induction false} CompactedKeepsCalls(events: seq<ToolEvent>)
    ensures CallsOf(Compacted(events)) == CallsOf(events)
  {
    if events != [] {
      var before, event := Init(events), Last(events);
      assert before + [event] == events;
      CompactedKeepsCalls(before);
      if event.Call? || SlotOf(event) !in Slots(before) {
        CompactedAdds(before, event);
        CallsConcat(Compacted(before), [Filled(events, SlotOf(event))]);
        CallsOfOne(Filled(events, SlotOf(event)));
      } else {
        var at :| 0 <= at < |Slots(before)| && Slots(before)[at] == SlotOf(event);
        CompactedUpdates(before, event, at);
        UpdateKeepsCalls(Compacted(before), at, Filled(events, SlotOf(event)));
      }
    }
  }

  /** The compacted form means what the turn means: the same text of every kind, the same
      calls in the same order and the same usage; compacting it again changes nothing. */
  lemma CompactedMeansTheSame(events: seq<ToolEvent>, kind: TextKind)
    ensures TextOf(Compacted(events), kind) == TextOf(events, kind)
    ensures CallsOf(Compacted(events)) == CallsOf(events)
    ensures UsageOf(Compacted(events)) == UsageOf(events)
    ensures Compacted(Compacted(events)) == Compacted(events)
  {
    CompactedKeepsText(events, kind);
    CompactedKeepsCalls(events);
    CompactedKeepsUsage(events);
    CompactedTwice(events);
  }

  lemma CompactedTwice(events: seq<ToolEvent>)
    ensures Compacted(Compacted(events)) == Compacted(events)
  {
    var once := Compacted(events);
    CompactedApart(events);
    SlotsOfApart(once);
    CompactedKeepsUsage(events);
    forall i | 0 <= i < |once| ensures Slots(once)[i] == Slots(events)[i] && Filled(once, Slots(once)[i]) == once[i] {
      SlotOfFilled(events, Slots(events)[i]);
      if Slots(events)[i].TextSlot? {
        CompactedKeepsText(events, Slots(events)[i].kind);
      }
    }
  }

  // ------------------------------------------------------------- text-only streams

  /** All text of one kind in a text-only stream, first to last. */
  function ModelTextOf(events: seq<ModelEvent>, kind: TextKind): string {
    if events == [] then ""
    else (if events[0].ModelText? && events[0].kind == kind then events[0].text else "") + ModelTextOf(events[1..], kind)
  }

  lemma {:induction false} TextConcat(a: seq<ToolEvent>, b: seq<ToolEvent>, kind: TextKind)
    ensures TextOf(a + b, kind) == TextOf(a, kind) + TextOf(b, kind)
    decreases |b|
  {
    if b == [] {
      assert a + b == a;
    } else {
      assert Init(a + b) == a + Init(b) && Last(a + b) == Last(b);
      TextConcat(a, Init(b), kind);
    }
  }

  lemma TextOfOne(event: ToolEvent, kind: TextKind)
    ensures TextOf([event], kind) == if event.Fragment? && event.kind == kind then event.text else ""
  {
    assert Init([event]) == [];
  }

  /** Converting a text-only stream keeps every text in order and adds no call. */
  lemma {:induction false} ConvertedMeansTheSame(events: seq<ModelEvent>, kind: TextKind)
    ensures TextOf(ToToolEvents(events), kind) == ModelTextOf(events, kind)
    ensures CallsOf(ToToolEvents(events)) == []
  {
    if events != [] {
      var first, rest := ToToolEvent(events[0]), ToToolEvents(events[1..]);
      assert ToToolEvents(events) == [first] + rest;
      ConvertedMeansTheSame(events[1..], kind);
      TextConcat([first], rest, kind);
      TextOfOne(first, kind);
      CallsConcat([first], rest);
      CallsOfOne(first);
    }
  }
}
