/** Projecting a completed provider turn: fragments are combined into one entry
    per kind, while calls and retained assistant content keep their order. */
module ModelResult {
  import opened Base

  datatype ToolCall = ToolCall(id: string, name: string, arguments: string)
  datatype Usage = Usage(inputTokens: nat, outputTokens: nat, cache: string)
  const NO_USAGE := Usage(0, 0, "")

  datatype TextKind = Assistant | ReasoningRaw | ReasoningSummary | Progress

  /** An event of a text-only stream, and one of a tool-capable stream. */
  datatype ModelEvent = ModelText(kind: TextKind, text: string) | ModelUsage(usage: Usage)
  datatype ToolEvent = Fragment(kind: TextKind, text: string) | Call(call: ToolCall) | Used(usage: Usage)

  /** Assistant content kept for the next provider request. */
  datatype Content = TextContent(text: string) | CallContent(call: ToolCall) | ReasoningContent(text: string)

  datatype Projection = Projection(
    assistantText: string, content: seq<Content>, calls: seq<ToolCall>, usage: Usage, compacted: seq<ToolEvent>)

  /** `model_event_to_tool_event`. */
  function ToToolEvent(event: ModelEvent): ToolEvent {
    match event
    case ModelText(kind, text) => Fragment(kind, text)
    case ModelUsage(usage) => Used(usage)
  }

  function ToToolEvents(events: seq<ModelEvent>): seq<ToolEvent> {
    seq(|events|, i requires 0 <= i < |events| => ToToolEvent(events[i]))
  }

  // -------------------------------------------------------- what a projection means

  function Init<T>(s: seq<T>): seq<T>
    requires s != []
  {
    s[..|s| - 1]
  }

  function Last<T>(s: seq<T>): T
    requires s != []
  {
    s[|s| - 1]
  }

  /** All text of one kind. */
  function TextOf(events: seq<ToolEvent>, kind: TextKind): string {
    if events == [] then ""
    else TextOf(Init(events), kind) + if Last(events).Fragment? && Last(events).kind == kind then Last(events).text else ""
  }

  function CallsOf(events: seq<ToolEvent>): seq<ToolCall> {
    if events == [] then []
    else CallsOf(Init(events)) + if Last(events).Call? then [Last(events).call] else []
  }

  /** The last usage report. */
  function UsageOf(events: seq<ToolEvent>): Usage {
    if events == [] then NO_USAGE else if Last(events).Used? then Last(events).usage else UsageOf(Init(events))
  }

  /** The places of the compacted form: one for each kind of text and for usage, at
      its first occurrence, and one for every call. */
  datatype Slot = TextSlot(kind: TextKind) | UsageSlot | CallSlot(call: ToolCall)

  function SlotOf(event: ToolEvent): Slot {
    match event
    case Fragment(kind, _) => TextSlot(kind)
    case Call(call) => CallSlot(call)
    case Used(_) => UsageSlot
  }

  function Slots(events: seq<ToolEvent>): seq<Slot> {
    if events == [] then []
    else
      var before, slot := Slots(Init(events)), SlotOf(Last(events));
      if !slot.CallSlot? && slot in before then before else before + [slot]
  }

  /** What a place holds: the joined text, the last usage, or the call. */
  function Filled(events: seq<ToolEvent>, slot: Slot): ToolEvent {
    match slot
    case TextSlot(kind) => Fragment(kind, TextOf(events, kind))
    case UsageSlot => Used(UsageOf(events))
    case CallSlot(call) => Call(call)
  }

  function Compacted(events: seq<ToolEvent>): seq<ToolEvent> {
    var slots := Slots(events);
    seq(|slots|, i requires 0 <= i < |slots| => Filled(events, slots[i]))
  }

  predicate HasRaw(events: seq<ToolEvent>) {
    exists i | 0 <= i < |events| :: events[i].Fragment? && events[i].kind == ReasoningRaw
  }

  function AppendReasoning(content: seq<Content>, text: string): seq<Content> {
    seq(|content|, i requires 0 <= i < |content| =>
      if content[i].ReasoningContent? then ReasoningContent(content[i].text + text) else content[i])
  }

  /** The retained content: text joins the text right before it, and all raw
      reasoning joins its first fragment. */
  function ContentOf(events: seq<ToolEvent>): seq<Content> {
    if events == [] then [] else Grown(ContentOf(Init(events)), HasRaw(Init(events)), Last(events))
  }

  function Grown(content: seq<Content>, raw: bool, event: ToolEvent): seq<Content> {
    match event
    case Call(call) => content + [CallContent(call)]
    case Fragment(Assistant, text) =>
      if content != [] && Last(content).TextContent? then Init(content) + [TextContent(Last(content).text + text)]
      else content + [TextContent(text)]
    case Fragment(ReasoningRaw, text) =>
      if raw then AppendReasoning(content, text) else content + [ReasoningContent(text)]
    case _ => content
  }

  function Project(events: seq<ToolEvent>): Projection {
    Projection(TextOf(events, Assistant), ContentOf(events), CallsOf(events), UsageOf(events), Compacted(events))
  }

  // ------------------------------------------------------------- one more event

  lemma Snoc(events: seq<ToolEvent>, event: ToolEvent)
    ensures Init(events + [event]) == events && Last(events + [event]) == event
  {
  }

  lemma TextSnoc(events: seq<ToolEvent>, event: ToolEvent, kind: TextKind)
    ensures TextOf(events + [event], kind)
            == TextOf(events, kind) + if event.Fragment? && event.kind == kind then event.text else ""
  {
    Snoc(events, event);
  }

  lemma UsageSnoc(events: seq<ToolEvent>, event: ToolEvent)
    ensures UsageOf(events + [event]) == if event.Used? then event.usage else UsageOf(events)
  {
    Snoc(events, event);
  }

  lemma SlotsSnoc(events: seq<ToolEvent>, event: ToolEvent)
    ensures Slots(events + [event])
            == if !event.Call? && SlotOf(event) in Slots(events) then Slots(events) else Slots(events) + [SlotOf(event)]
  {
    Snoc(events, event);
  }

  lemma ContentSnoc(events: seq<ToolEvent>, event: ToolEvent)
    ensures ContentOf(events + [event]) == Grown(ContentOf(events), HasRaw(events), event)
  {
    Snoc(events, event);
  }

  lemma HasRawSnoc(events: seq<ToolEvent>, event: ToolEvent)
    ensures HasRaw(events + [event]) <==> HasRaw(events) || (event.Fragment? && event.kind == ReasoningRaw)
  {
    var more := events + [event];
    if i :| 0 <= i < |events| && events[i].Fragment? && events[i].kind == ReasoningRaw {
      assert more[i] == events[i];
    }
    assert more[|events|] == event;
  }

  ghost predicate SlotsDistinct(slots: seq<Slot>) {
    forall i, j :: 0 <= i < j < |slots| && !slots[i].CallSlot? ==> slots[i] != slots[j]
  }

  lemma {:induction false} SlotsAreDistinct(events: seq<ToolEvent>)
    ensures SlotsDistinct(Slots(events))
  {
    if events != [] {
      SlotsAreDistinct(Init(events));
    }
  }

  /** An event changes what one kind of place holds, and no other. */
  lemma FilledSnoc(events: seq<ToolEvent>, event: ToolEvent, slot: Slot)
    ensures slot != SlotOf(event) ==> Filled(events + [event], slot) == Filled(events, slot)
  {
    if slot.TextSlot? {
      TextSnoc(events, event, slot.kind);
    }
    UsageSnoc(events, event);
  }

  /** A first fragment, usage or call adds an entry at the end. */
  lemma CompactedAdds(events: seq<ToolEvent>, event: ToolEvent)
    requires event.Call? || SlotOf(event) !in Slots(events)
    ensures Compacted(events + [event]) == Compacted(events) + [Filled(events + [event], SlotOf(event))]
  {
    SlotsSnoc(events, event);
    forall i | 0 <= i < |Slots(events)| ensures Filled(events + [event], Slots(events)[i]) == Filled(events, Slots(events)[i]) {
      FilledSnoc(events, event, Slots(events)[i]);
    }
  }

  /** A later fragment or usage changes its own entry in place. */
  lemma CompactedUpdates(events: seq<ToolEvent>, event: ToolEvent, at: nat)
    requires !event.Call? && at < |Slots(events)| && Slots(events)[at] == SlotOf(event)
    ensures Compacted(events + [event]) == Compacted(events)[at := Filled(events + [event], SlotOf(event))]
  {
    SlotsSnoc(events, event);
    SlotsAreDistinct(events);
    forall i | 0 <= i < |Slots(events)| && i != at
      ensures Filled(events + [event], Slots(events)[i]) == Filled(events, Slots(events)[i])
    {
      FilledSnoc(events, event, Slots(events)[i]);
    }
  }

  // ------------------------------------------------------------ the shape of content

  predicate IsRaw(event: ToolEvent) { event.Fragment? && event.kind == ReasoningRaw }

  /** No two texts are neighbours, and all raw reasoning sits in one place. */
  ghost predicate Shaped(content: seq<Content>, raw: bool, text: string) {
    && (forall i :: 0 < i < |content| ==> !(content[i - 1].TextContent? && content[i].TextContent?))
    && (forall i, j :: 0 <= i < j < |content| ==> !(content[i].ReasoningContent? && content[j].ReasoningContent?))
    && (forall i :: 0 <= i < |content| && content[i].ReasoningContent? ==> raw && content[i].text == text)
    && (raw ==> exists i :: 0 <= i < |content| && content[i].ReasoningContent?)
  }

  lemma GrownShaped(content: seq<Content>, raw: bool, text: string, event: ToolEvent)
    requires Shaped(content, raw, text) && (!raw ==> text == "")
    ensures Shaped(Grown(content, raw, event), raw || IsRaw(event), text + if IsRaw(event) then event.text else "")
  {
    var after := Grown(content, raw, event);
    if raw {
      var i :| 0 <= i < |content| && content[i].ReasoningContent?;
      assert after[i].ReasoningContent?;
    } else if IsRaw(event) {
      assert after[|content|] == ReasoningContent(event.text) && "" + event.text == event.text;
    }
    assert !IsRaw(event) ==> text + "" == text;
  }

  lemma {:induction false} ContentShaped(events: seq<ToolEvent>)
    ensures Shaped(ContentOf(events), HasRaw(events), TextOf(events, ReasoningRaw))
    ensures !HasRaw(events) ==> TextOf(events, ReasoningRaw) == ""
  {
    if events != [] {
      var before, event := Init(events), Last(events);
      ContentShaped(before);
      assert events == before + [event];
      GrownShaped(ContentOf(before), HasRaw(before), TextOf(before, ReasoningRaw), event);
      HasRawSnoc(before, event);
    }
  }

  /** The content again as events. */
  function Replayed(content: seq<Content>): seq<ToolEvent> {
    seq(|content|, i requires 0 <= i < |content| => ReplayedItem(content[i]))
  }

  function ReplayedItem(item: Content): ToolEvent {
    match item
    case TextContent(text) => Fragment(Assistant, text)
    case CallContent(call) => Call(call)
    case ReasoningContent(text) => Fragment(ReasoningRaw, text)
  }

  predicate HasReasoning(content: seq<Content>) {
    exists i | 0 <= i < |content| :: content[i].ReasoningContent?
  }

  /** The content can be extended by one more item without anything joining. */
  predicate Follows(content: seq<Content>, item: Content) {
    && (item.TextContent? ==> content == [] || !Last(content).TextContent?)
    && (item.ReasoningContent? ==> !HasReasoning(content))
  }

  lemma {:induction false} ReplayIdentity(content: seq<Content>)
    requires forall i :: 0 <= i < |content| ==> Follows(content[..i], content[i])
    ensures ContentOf(Replayed(content)) == content
    ensures HasRaw(Replayed(content)) <==> HasReasoning(content)
  {
    if content != [] {
      var before, item := Init(content), Last(content);
      forall i | 0 <= i < |before| ensures Follows(before[..i], before[i]) {
        assert before[..i] == content[..i];
      }
      ReplayIdentity(before);
      assert content == before + [item] && Follows(before, item);
      ReplayStep(before, item);
    }
  }

  lemma ReplayStep(before: seq<Content>, item: Content)
    requires ContentOf(Replayed(before)) == before && (HasRaw(Replayed(before)) <==> HasReasoning(before))
    requires Follows(before, item)
    ensures ContentOf(Replayed(before + [item])) == before + [item]
    ensures HasRaw(Replayed(before + [item])) <==> HasReasoning(before + [item])
  {
    assert Replayed(before + [item]) == Replayed(before) + [ReplayedItem(item)];
    ContentSnoc(Replayed(before), ReplayedItem(item));
    HasRawSnoc(Replayed(before), ReplayedItem(item));
    ReasoningSnoc(before, item);
  }

  lemma ReasoningSnoc(content: seq<Content>, item: Content)
    ensures HasReasoning(content + [item]) <==> HasReasoning(content) || item.ReasoningContent?
  {
    var more := content + [item];
    assert more[|content|] == item;
    if i :| 0 <= i < |content| && content[i].ReasoningContent? {
      assert more[i] == content[i];
    }
  }

  lemma ShapedFollows(content: seq<Content>, raw: bool, text: string, i: nat)
    requires Shaped(content, raw, text) && i < |content|
    ensures Follows(content[..i], content[i])
  {
    if i > 0 {
      assert Last(content[..i]) == content[i - 1];
    }
  }

  /** Projecting the retained content of a turn gives that content back. */
  lemma ReprojectionIdentity(events: seq<ToolEvent>)
    ensures ContentOf(Replayed(ContentOf(events))) == ContentOf(events)
  {
    var content := ContentOf(events);
    ContentShaped(events);
    forall i | 0 <= i < |content| ensures Follows(content[..i], content[i]) {
      ShapedFollows(content, HasRaw(events), TextOf(events, ReasoningRaw), i);
    }
    ReplayIdentity(content);
  }

  // ------------------------------------------------------------ the order of content

  datatype Atom = Char(c: char) | CallAtom(call: ToolCall) | RawAtom

  function Chars(text: string): seq<Atom> {
    seq(|text|, i requires 0 <= i < |text| => Char(text[i]))
  }

  function ItemAtoms(item: Content): seq<Atom> {
    match item
    case TextContent(text) => Chars(text)
    case CallContent(call) => [CallAtom(call)]
    case ReasoningContent(_) => [RawAtom]
  }

  function ContentAtoms(content: seq<Content>): seq<Atom> {
    if content == [] then [] else ContentAtoms(Init(content)) + ItemAtoms(Last(content))
  }

  /** Assistant characters, calls, and the start of raw reasoning, as they arrive. */
  function EventAtoms(events: seq<ToolEvent>): seq<Atom> {
    if events == [] then []
    else
      EventAtoms(Init(events)) +
      match Last(events)
      case Call(call) => [CallAtom(call)]
      case Fragment(Assistant, text) => Chars(text)
      case Fragment(ReasoningRaw, _) => if HasRaw(Init(events)) then [] else [RawAtom]
      case _ => []
  }

  lemma AtomsSnoc(content: seq<Content>, item: Content)
    ensures ContentAtoms(content + [item]) == ContentAtoms(content) + ItemAtoms(item)
  {
    assert Init(content + [item]) == content;
  }

  lemma {:induction false} AtomsOfAppended(content: seq<Content>, text: string)
    ensures ContentAtoms(AppendReasoning(content, text)) == ContentAtoms(content)
  {
    if content != [] {
      AtomsOfAppended(Init(content), text);
      assert Init(AppendReasoning(content, text)) == AppendReasoning(Init(content), text);
    }
  }

  lemma LongerText(before: seq<Content>, t: string, text: string)
    ensures ContentAtoms(before + [TextContent(t + text)]) == ContentAtoms(before) + Chars(t) + Chars(text)
  {
    AtomsSnoc(before, TextContent(t + text));
    assert Chars(t + text) == Chars(t) + Chars(text);
  }

  lemma GrownAtoms(content: seq<Content>, raw: bool, event: ToolEvent)
    ensures ContentAtoms(Grown(content, raw, event))
            == ContentAtoms(content) +
               match event
               case Call(call) => [CallAtom(call)]
               case Fragment(Assistant, text) => Chars(text)
               case Fragment(ReasoningRaw, _) => if raw then [] else [RawAtom]
               case _ => []
  {
    match event
    case Call(call) => AtomsSnoc(content, CallContent(call));
    case Fragment(Assistant, text) =>
      if content != [] && Last(content).TextContent? {
        LongerText(Init(content), Last(content).text, text);
      } else {
        AtomsSnoc(content, TextContent(text));
      }
    case Fragment(ReasoningRaw, text) =>
      if raw {
        AtomsOfAppended(content, text);
      } else {
        AtomsSnoc(content, ReasoningContent(text));
      }
    case _ =>
  }

  /** The retained content holds every assistant character, every call and the one
      place of raw reasoning, in the order of the stream. */
  lemma {:induction false} ContentKeepsOrder(events: seq<ToolEvent>)
    ensures ContentAtoms(ContentOf(events)) == EventAtoms(events)
  {
    if events != [] {
      ContentKeepsOrder(Init(events));
      GrownAtoms(ContentOf(Init(events)), HasRaw(Init(events)), Last(events));
    }
  }

  // ------------------------------------------------------- splitting changes nothing

  /** Two event lists that no later event can tell apart. */
  ghost predicate Alike(a: seq<ToolEvent>, b: seq<ToolEvent>) {
    && (forall kind :: TextOf(a, kind) == TextOf(b, kind))
    && CallsOf(a) == CallsOf(b) && UsageOf(a) == UsageOf(b) && Slots(a) == Slots(b)
    && ContentOf(a) == ContentOf(b) && HasRaw(a) == HasRaw(b)
  }

  lemma AlikeSnoc(a: seq<ToolEvent>, b: seq<ToolEvent>, event: ToolEvent)
    requires Alike(a, b)
    ensures Alike(a + [event], b + [event])
  {
    forall kind ensures TextOf(a + [event], kind) == TextOf(b + [event], kind) {
      TextSnoc(a, event, kind);
      TextSnoc(b, event, kind);
    }
    Snoc(a, event);
    Snoc(b, event);
    HasRawSnoc(a, event);
    HasRawSnoc(b, event);
  }

  lemma {:induction false} AlikeAppend(a: seq<ToolEvent>, b: seq<ToolEvent>, more: seq<ToolEvent>)
    requires Alike(a, b)
    ensures Alike(a + more, b + more)
    decreases |more|
  {
    if more == [] {
      assert a + more == a && b + more == b;
    } else {
      AlikeAppend(a, b, Init(more));
      AlikeSnoc(a + Init(more), b + Init(more), Last(more));
      assert a + more == a + Init(more) + [Last(more)] && b + more == b + Init(more) + [Last(more)];
    }
  }

  lemma SplitAlike(events: seq<ToolEvent>, kind: TextKind, x: string, y: string)
    ensures Alike(events + [Fragment(kind, x + y)], events + [Fragment(kind, x)] + [Fragment(kind, y)])
  {
    var whole, first, second := Fragment(kind, x + y), Fragment(kind, x), Fragment(kind, y);
    forall k ensures TextOf(events + [whole], k) == TextOf(events + [first] + [second], k) {
      TextSnoc(events, whole, k);
      TextSnoc(events, first, k);
      TextSnoc(events + [first], second, k);
      assert TextOf(events, k) + (x + y) == TextOf(events, k) + x + y;
    }
    SplitContent(events, kind, x, y);
    SplitPlaces(events, kind, x, y);
    HasRawSnoc(events, whole);
    HasRawSnoc(events, first);
    HasRawSnoc(events + [first], second);
  }

  lemma SplitPlaces(events: seq<ToolEvent>, kind: TextKind, x: string, y: string)
    ensures var whole, parts := events + [Fragment(kind, x + y)], events + [Fragment(kind, x)] + [Fragment(kind, y)];
            CallsOf(whole) == CallsOf(parts) && UsageOf(whole) == UsageOf(parts) && Slots(whole) == Slots(parts)
  {
    Snoc(events, Fragment(kind, x + y));
    Snoc(events, Fragment(kind, x));
    Snoc(events + [Fragment(kind, x)], Fragment(kind, y));
  }

  lemma SplitContent(events: seq<ToolEvent>, kind: TextKind, x: string, y: string)
    ensures ContentOf(events + [Fragment(kind, x + y)]) == ContentOf(events + [Fragment(kind, x)] + [Fragment(kind, y)])
  {
    var first := Fragment(kind, x);
    ContentSnoc(events, Fragment(kind, x + y));
    ContentSnoc(events, first);
    ContentSnoc(events + [first], Fragment(kind, y));
    HasRawSnoc(events, first);
    ContentShaped(events);
    GrownTwice(ContentOf(events), HasRaw(events), kind, x, y);
  }

  lemma GrownTwice(content: seq<Content>, raw: bool, kind: TextKind, x: string, y: string)
    requires !raw ==> forall i :: 0 <= i < |content| ==> !content[i].ReasoningContent?
    ensures Grown(Grown(content, raw, Fragment(kind, x)), raw || kind == ReasoningRaw, Fragment(kind, y))
            == Grown(content, raw, Fragment(kind, x + y))
  {
    match kind
    case Assistant =>
      if content != [] && Last(content).TextContent? {
        assert Last(content).text + x + y == Last(content).text + (x + y);
      }
    case ReasoningRaw =>
      var grown := Grown(content, raw, Fragment(kind, x));
      assert forall t: string :: t + x + y == t + (x + y);
    case _ =>
  }

  /** Splitting any fragment of any kind anywhere leaves the projection as it is. */
  lemma SplitInvariant(before: seq<ToolEvent>, kind: TextKind, x: string, y: string, later: seq<ToolEvent>)
    ensures Project(before + [Fragment(kind, x + y)] + later)
            == Project(before + [Fragment(kind, x)] + [Fragment(kind, y)] + later)
  {
    SplitAlike(before, kind, x, y);
    var a, b := before + [Fragment(kind, x + y)], before + [Fragment(kind, x)] + [Fragment(kind, y)];
    AlikeAppend(a, b, later);
    AlikeCompacted(a + later, b + later);
  }

  lemma AlikeCompacted(a: seq<ToolEvent>, b: seq<ToolEvent>)
    requires Alike(a, b)
    ensures Compacted(a) == Compacted(b)
  {
    forall i | 0 <= i < |Slots(a)| ensures Filled(a, Slots(a)[i]) == Filled(b, Slots(b)[i]) {
    }
  }

  // --------------------------------------------------------------------- the builder

  /** An index names the place of a slot, or nothing while there is none. */
  ghost predicate Points(index: Option<nat>, slots: seq<Slot>, slot: Slot) {
    match index
    case None => slot !in slots
    case Some(i) => i < |slots| && slots[i] == slot
  }

  ghost predicate ReasoningPlace(index: Option<nat>, content: seq<Content>, raw: bool) {
    && (index.Some? <==> raw)
    && (index.Some? ==> index.value < |content| && content[index.value].ReasoningContent?)
  }

  lemma PointsOn(index: Option<nat>, events: seq<ToolEvent>, event: ToolEvent, slot: Slot)
    requires Points(index, Slots(events), slot) && !slot.CallSlot?
    requires index.Some? || slot != SlotOf(event)
    ensures Points(index, Slots(events + [event]), slot)
  {
    SlotsSnoc(events, event);
  }

  lemma PointsNew(events: seq<ToolEvent>, event: ToolEvent)
    requires event.Call? || SlotOf(event) !in Slots(events)
    ensures Points(Some(|Slots(events)|), Slots(events + [event]), SlotOf(event))
  {
    SlotsSnoc(events, event);
  }

  class ProjectionBuilder {
    var assistantText: string
    var content: seq<Content>
    var calls: seq<ToolCall>
    var usage: Usage
    var compacted: seq<ToolEvent>
    var reasoningContentIndex: Option<nat>
    var indexes: map<TextKind, nat>
    var usageIndex: Option<nat>
    ghost var seen: seq<ToolEvent>

    ghost predicate Valid()
      reads this
    {
      && assistantText == TextOf(seen, Assistant) && content == ContentOf(seen)
      && calls == CallsOf(seen) && usage == UsageOf(seen) && compacted == Compacted(seen)
      && (forall kind :: Points(IndexOf(indexes, kind), Slots(seen), TextSlot(kind)))
      && Points(usageIndex, Slots(seen), UsageSlot)
      && ReasoningPlace(reasoningContentIndex, content, HasRaw(seen))
    }

    constructor ()
      ensures Valid() && seen == []
    {
      assistantText, content, calls, usage, compacted := "", [], [], NO_USAGE, [];
      reasoningContentIndex, indexes, usageIndex, seen := None, map[], None, [];
    }

    /** `text`. */
    method AddText(kind: TextKind, text: string)
      requires Valid()
      modifies this
      ensures Valid() && seen == old(seen) + [Fragment(kind, text)]
    {
      Snoc(seen, Fragment(kind, text));
      AddContent(kind, text);
      AddCompacted(kind, text);
    }

    /** The part of `text` that keeps the retained content. */
    method AddContent(kind: TextKind, text: string)
      requires assistantText == TextOf(seen, Assistant) && content == ContentOf(seen)
      requires ReasoningPlace(reasoningContentIndex, content, HasRaw(seen))
      modifies this`assistantText, this`content, this`reasoningContentIndex
      ensures var after := seen + [Fragment(kind, text)];
              && assistantText == TextOf(after, Assistant) && content == ContentOf(after)
              && ReasoningPlace(reasoningContentIndex, content, HasRaw(after))
    {
      ghost var event := Fragment(kind, text);
      HasRawSnoc(seen, event);
      ContentSnoc(seen, event);
      TextSnoc(seen, event, Assistant);
      if kind == Assistant {
        assistantText := assistantText + text;
        if content != [] && content[|content| - 1].TextContent? {
          content := content[|content| - 1 := TextContent(content[|content| - 1].text + text)];
        } else {
          content := content + [TextContent(text)];
        }
      }
      if kind == ReasoningRaw {
        match reasoningContentIndex {
          case Some(index) =>
            ContentShaped(seen);
            content := content[index := ReasoningContent(content[index].text + text)];
          case None =>
            content := content + [ReasoningContent(text)];
            reasoningContentIndex := Some(|content| - 1);
        }
      }
      assert content == Grown(old(content), HasRaw(seen), event);
    }

    /** The part of `text` that keeps one compacted entry per kind. */
    method AddCompacted(kind: TextKind, text: string)
      requires compacted == Compacted(seen) && Points(usageIndex, Slots(seen), UsageSlot)
      requires forall k :: Points(IndexOf(indexes, k), Slots(seen), TextSlot(k))
      modifies this`compacted, this`indexes, this`seen
      ensures seen == old(seen) + [Fragment(kind, text)]
      ensures compacted == Compacted(seen) && Points(usageIndex, Slots(seen), UsageSlot)
      ensures forall k :: Points(IndexOf(indexes, k), Slots(seen), TextSlot(k))
    {
      ghost var event := Fragment(kind, text);
      TextSnoc(seen, event, kind);
      PointsOn(usageIndex, seen, event, UsageSlot);
      forall k | k != kind || kind in indexes ensures Points(IndexOf(indexes, k), Slots(seen + [event]), TextSlot(k)) {
        PointsOn(IndexOf(indexes, k), seen, event, TextSlot(k));
      }
      if kind in indexes {
        var index := indexes[kind];
        assert Points(IndexOf(indexes, kind), Slots(seen), TextSlot(kind));
        CompactedUpdates(seen, event, index);
        compacted := compacted[index := Fragment(kind, compacted[index].text + text)];
      } else {
        assert Points(IndexOf(indexes, kind), Slots(seen), TextSlot(kind));
        CompactedAdds(seen, event);
        PointsNew(seen, event);
        FirstOfKind(seen, kind);
        assert "" + text == text;
        indexes := indexes[kind := |compacted|];
        compacted := compacted + [Fragment(kind, text)];
      }
      seen := seen + [event];
    }

    method Add(event: ToolEvent)
      requires Valid()
      modifies this
      ensures Valid() && seen == old(seen) + [event]
    {
      match event {
        case Fragment(kind, text) => AddText(kind, text);
        case Call(call) => AddCall(call);
        case Used(report) => AddUsage(report);
      }
    }

    /** `finish`. */
    method Finish() returns (r: Projection)
      requires Valid()
      ensures r == Project(seen)
    {
      r := Projection(assistantText, content, calls, usage, compacted);
    }

    /** `tool_call`. */
    method AddCall(call: ToolCall)
      requires Valid()
      modifies this
      ensures Valid() && seen == old(seen) + [Call(call)]
    {
      ghost var event := Call(call);
      HasRawSnoc(seen, event);
      TextSnoc(seen, event, Assistant);
      Snoc(seen, event);
      CompactedAdds(seen, event);
      PointsOn(usageIndex, seen, event, UsageSlot);
      IndexesStay(indexes, seen, event, seen + [event]);
      calls := calls + [call];
      content := content + [CallContent(call)];
      compacted := compacted + [Call(call)];
      seen := seen + [event];
    }

    /** `usage`: the last report replaces the earlier ones in place. */
    method AddUsage(report: Usage)
      requires Valid()
      modifies this
      ensures Valid() && seen == old(seen) + [Used(report)]
    {
      ghost var after := seen + [Used(report)];
      OnlyUsage(seen, report, after);
      IndexesStay(indexes, seen, Used(report), after);
      UsageEntry(compacted, usageIndex, report, seen, after);
      usage := report;
      match usageIndex {
        case Some(index) =>
          compacted := compacted[index := Used(report)];
        case None =>
          usageIndex := Some(|compacted|);
          compacted := compacted + [Used(report)];
      }
      seen := after;
    }
  }

  /** Where the usage entry goes: in place of the earlier one, or at the end. */
  lemma UsageEntry(compacted: seq<ToolEvent>, usageIndex: Option<nat>, report: Usage,
                   events: seq<ToolEvent>, after: seq<ToolEvent>)
    requires compacted == Compacted(events) && Points(usageIndex, Slots(events), UsageSlot)
    requires after == events + [Used(report)]
    ensures usageIndex.Some? ==>
              && usageIndex.value < |compacted| && compacted[usageIndex.value := Used(report)] == Compacted(after)
              && Points(usageIndex, Slots(after), UsageSlot)
    ensures usageIndex.None? ==>
              compacted + [Used(report)] == Compacted(after) && Points(Some(|compacted|), Slots(after), UsageSlot)
  {
    UsageSnoc(events, Used(report));
    SlotsSnoc(events, Used(report));
    if usageIndex.Some? {
      CompactedUpdates(events, Used(report), usageIndex.value);
    } else {
      CompactedAdds(events, Used(report));
    }
  }

  /** A usage report changes nothing but the usage. */
  lemma OnlyUsage(events: seq<ToolEvent>, report: Usage, after: seq<ToolEvent>)
    requires after == events + [Used(report)]
    ensures TextOf(after, Assistant) == TextOf(events, Assistant) && ContentOf(after) == ContentOf(events)
    ensures CallsOf(after) == CallsOf(events) && UsageOf(after) == report && HasRaw(after) == HasRaw(events)
  {
    Snoc(events, Used(report));
    HasRawSnoc(events, Used(report));
  }

  lemma IndexesStay(indexes: map<TextKind, nat>, events: seq<ToolEvent>, event: ToolEvent, after: seq<ToolEvent>)
    requires forall k :: Points(IndexOf(indexes, k), Slots(events), TextSlot(k))
    requires !event.Fragment? && after == events + [event]
    ensures forall k :: Points(IndexOf(indexes, k), Slots(after), TextSlot(k))
  {
    forall k ensures Points(IndexOf(indexes, k), Slots(after), TextSlot(k)) {
      PointsOn(IndexOf(indexes, k), events, event, TextSlot(k));
    }
  }

  function IndexOf(indexes: map<TextKind, nat>, kind: TextKind): Option<nat> {
    if kind in indexes then Some(indexes[kind]) else None
  }

  lemma {:induction false} FirstOfKind(events: seq<ToolEvent>, kind: TextKind)
    requires TextSlot(kind) !in Slots(events)
    ensures TextOf(events, kind) == ""
  {
    if events != [] {
      FirstOfKind(Init(events), kind);
    }
  }

  /** `project_model_tool_events`. */
  method ProjectToolEvents(events: seq<ToolEvent>) returns (r: Projection)
    ensures r == Project(events)
  {
    var builder := new ProjectionBuilder();
    for i := 0 to |events|
      invariant builder.Valid() && builder.seen == events[..i]
      invariant fresh(builder)
    {
      builder.Add(events[i]);
      assert events[..i] + [events[i]] == events[..i + 1];
    }
    assert events[..|events|] == events;
    r := builder.Finish();
  }

  /** `project_model_events`: the same as projecting the converted events. */
  method ProjectEvents(events: seq<ModelEvent>) returns (r: Projection)
    ensures r == Project(ToToolEvents(events))
  {
    var builder := new ProjectionBuilder();
    ghost var converted := ToToolEvents(events);
    for i := 0 to |events|
      invariant builder.Valid() && builder.seen == converted[..i]
      invariant fresh(builder)
    {
      match events[i] {
        case ModelText(kind, text) => builder.AddText(kind, text);
        case ModelUsage(usage) => builder.AddUsage(usage);
      }
      assert converted[..i] + [converted[i]] == converted[..i + 1];
    }
    assert converted[..|events|] == converted;
    r := builder.Finish();
  }
}
