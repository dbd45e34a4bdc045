/** Host event names and how the bridge routes them: the classifiers of
    src/dom/bridge.js (identical in dom/src/dom.js), the event types each
    host name turns into, and which commands `receiveEvent` and
    `receiveTouches` put on the queue. */
module EventRouting {
  import opened JsValues
  import opened Commands

  const KeyboardEvents: seq<string> := ["topFocus", "topEndEditing"]
  const FocusEvents: seq<string> := ["topFocus"]
  const BlurEvents: seq<string> := ["topBlur"]

  const Click := "Click"
  const Change := "Change"
  const Focus := "Focus"
  const Blur := "Blur"

  const EventPhaseNone := 0
  const EventPhaseCapture := 1
  const EventPhaseAtTarget := 2
  const EventPhaseBubble := 3

  const ElementNode := 1
  const TextNode := 3
  const DocumentNode := 9
  const DocumentFragmentNode := 11

  predicate IsClickEvent(t: string) {
    t == "topTouchEnd"
  }

  predicate IsFocusEvent(t: string) {
    t in FocusEvents
  }

  predicate IsBlurEvent(t: string) {
    t in BlurEvents
  }

  predicate IsGenericEvent(t: string) {
    IsFocusEvent(t) || IsBlurEvent(t)
  }

  predicate IsKeyboardEvent(t: string) {
    t in KeyboardEvents
  }

  /** The `_eventType` of `handleGenericEvent`: Blur overrides Focus. */
  function GenericEventType(t: string): string
    requires IsGenericEvent(t)
  {
    if IsBlurEvent(t) then Blur else Focus
  }

  /** The DOM event types `handleEvent` dispatches for one host event name,
      in the order the three independent checks run. */
  function HandledTypes(t: string): seq<string> {
    (if IsClickEvent(t) then [Click] else [])
    + (if IsKeyboardEvent(t) then [Change] else [])
    + (if IsGenericEvent(t) then [GenericEventType(t)] else [])
  }

  /** Every host name turns into at most one DOM event except 'topFocus',
      which sits in both the keyboard and the focus set and turns into a
      Change followed by a Focus. */
  lemma Classification(t: string)
    ensures HandledTypes("topTouchEnd") == [Click]
    ensures HandledTypes("topEndEditing") == [Change]
    ensures HandledTypes("topBlur") == [Blur]
    ensures HandledTypes("topFocus") == [Change, Focus]
    ensures t !in {"topTouchEnd", "topEndEditing", "topBlur", "topFocus"} ==> HandledTypes(t) == []
    ensures |HandledTypes(t)| == 2 <==> t == "topFocus"
  {
    assert "topFocus" != "topEndEditing";
  }

  /** `receiveEvent(rootNodeID, topLevelType, nativeEvent)` of src/dom/bridge.js
      and dom/src/dom.js: the commands it enqueues, in order. */
  function ReceiveEventCommands(topLevelType: string, native: NativeEvent): seq<Command> {
    match native.target
    case None => []
    case Some(id) =>
      if id == 0 then []
      else
        (if IsGenericEvent(topLevelType) then [EventCmd(id, topLevelType, native)] else [])
        + (if IsKeyboardEvent(topLevelType) then [EventCmd(id, topLevelType, native)] else [])
  }

  /** A native event with a usable target is enqueued once per matching set,
      so 'topFocus' is enqueued twice and 'topTouchEnd' (a touch, not an
      event) not at all; without a target nothing is enqueued. */
  lemma ReceiveEventCounts(topLevelType: string, native: NativeEvent)
    ensures native.target == None || native.target == Some(0) ==> ReceiveEventCommands(topLevelType, native) == []
    ensures native.target.Some? && native.target.value != 0 ==>
      var c := EventCmd(native.target.value, topLevelType, native);
      && (topLevelType == "topFocus" ==> ReceiveEventCommands(topLevelType, native) == [c, c])
      && (topLevelType in {"topBlur", "topEndEditing"} ==> ReceiveEventCommands(topLevelType, native) == [c])
      && (topLevelType !in {"topFocus", "topBlur", "topEndEditing"} ==> ReceiveEventCommands(topLevelType, native) == [])
  {
  }

  /** The target of the first touch, when it names a node: `touch.target < 1`
      turns it into null, and a falsy one stops the handler. */
  function TouchTarget(touches: seq<NativeEvent>): Option<int> {
    if touches == [] then None
    else
      match touches[0].target
      case None => None
      case Some(t) => if t < 1 then None else Some(t)
  }

  /** `receiveTouches` of src/dom/bridge.js: also drops touches on the root. */
  function ReceiveTouchesCommands(eventType: string, touches: seq<NativeEvent>, root: Option<int>): (r: seq<Command>)
    ensures |r| <= 1
  {
    match TouchTarget(touches)
    case None => []
    case Some(t) => if Some(t) == root then [] else [EventCmd(t, eventType, touches[0])]
  }

  /** `receiveTouches` of dom/src/dom.js and dom/src/event-responder.js: no
      root check. */
  function ResponderTouchesCommands(eventType: string, touches: seq<NativeEvent>): (r: seq<Command>)
    ensures |r| <= 1
  {
    match TouchTarget(touches)
    case None => []
    case Some(t) => [EventCmd(t, eventType, touches[0])]
  }

  /** Only the first touch is looked at; a command is enqueued exactly when
      it targets a tag >= 1 (other than the root in src/dom), and then it
      carries that tag, the event name and the touch itself. */
  lemma TouchesUseFirstTouchOnly(eventType: string, touches: seq<NativeEvent>, root: Option<int>)
    ensures touches != [] ==> ReceiveTouchesCommands(eventType, touches, root) == ReceiveTouchesCommands(eventType, touches[..1], root)
    ensures |ReceiveTouchesCommands(eventType, touches, root)| == 1 <==>
      touches != [] && touches[0].target.Some? && touches[0].target.value >= 1 && touches[0].target != root
    ensures |ResponderTouchesCommands(eventType, touches)| == 1 <==>
      touches != [] && touches[0].target.Some? && touches[0].target.value >= 1
    ensures ResponderTouchesCommands(eventType, touches) != [] ==>
      ResponderTouchesCommands(eventType, touches) == [EventCmd(touches[0].target.value, eventType, touches[0])]
    ensures ReceiveTouchesCommands(eventType, touches, root) != [] ==>
      ReceiveTouchesCommands(eventType, touches, root) == ResponderTouchesCommands(eventType, touches)
  {
  }
}
