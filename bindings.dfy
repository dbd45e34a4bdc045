/** Bindings and the bridge of the class-based DOM (src/dom/binding.js,
    src/dom/bridge.js) and of the monolithic dom/src/dom.js (`createBinding`,
    `bridge`, `process`).  A binding is a node's property cache; every change
    it makes becomes a command appended to the bridge queue, which the
    bridge drains one command per tick, turning each command into host calls.
    The two generations differ in three places, selected by `Flavour`:
    dom/src/dom.js allocates ids inline, its `clear` empties the queue first,
    and its `call` tolerates unknown ids where src/dom throws. */
module Bindings {
  import opened JsValues
  import opened Commands
  import opened Registry
  import opened EventRouting
  import opened ChildrenDiff

  datatype Flavour = ClassBased | Monolith

  /** What `call` needs to know about a registered binding. */
  datatype BindingView = BindingView(localName: string, props: map<string, Value>)

  /** Running one command either makes host calls or throws. */
  datatype CallResult = Done(calls: seq<HostCall>) | Threw

  /** The `manageChildren` container: the root tag for the document,
      otherwise the binding's own id. */
  function Container(id: int, localName: string, root: Option<int>): Option<int> {
    if localName == "#document" then root else Some(id)
  }

  /** One delivery per DOM event type `handleEvent` derives from the host name. */
  function Deliveries(target: int, topLevelType: string, native: NativeEvent): (r: seq<HostCall>)
    ensures |r| == |HandledTypes(topLevelType)|
  {
    var types := HandledTypes(topLevelType);
    seq(|types|, i requires 0 <= i < |types| => DeliverEvent(target, BindingEvent(types[i], native)))
  }

  /** `bridge.call(method, params)`: the host calls one command makes, given
      the registered bindings, the type table and the root tag. */
  function CallEffect(flavour: Flavour, c: Command, views: map<int, BindingView>,
                      types: map<string, ViewType>, falseTypes: set<string>, root: Option<int>): CallResult
  {
    match c
    case ClearCmd(id) =>
      if id !in views then Threw else Done([ClearRoot(root)])
    case CreateCmd(id, localName) =>
      if flavour == ClassBased && id !in views then Threw
      else if localName in falseTypes then Done([])
      else if id !in views then Threw
      else if localName == "#text" then Done([CreateView(id, "RCTRawText", root, Some(PropOf(views[id].props, "text")))])
      else if localName in types then Done([CreateView(id, types[localName].viewClass, root, None)])
      else Threw
    case SetPropCmd(id, _, _) =>
      if id !in views then Threw
      else
        var b := views[id];
        Done((if b.localName == "#text" then [UpdateText(id, PropOf(b.props, "text"))] else [])
          + (if b.localName in types then [UpdateProps(id, types[b.localName].viewClass, b.props)] else []))
    case UpdateChildrenCmd(id, prev, next) =>
      if id !in views then Threw
      else Done([ManageChildren(Container(id, views[id].localName, root), Diff(prev, next))])
    case EventCmd(target, topLevelType, native) =>
      if target !in views then (if flavour == ClassBased then Threw else Done([]))
      else Done(Deliveries(target, topLevelType, native))
  }

  /** A 'topFocus' event for a registered node is delivered twice from one
      command: first as a Change carrying the native text, then as a Focus. */
  lemma TopFocusDeliversChangeThenFocus(flavour: Flavour, views: map<int, BindingView>,
                                        types: map<string, ViewType>, falseTypes: set<string>,
                                        root: Option<int>, target: int, native: NativeEvent)
    requires target in views
    ensures CallEffect(flavour, EventCmd(target, "topFocus", native), views, types, falseTypes, root)
      == Done([DeliverEvent(target, HostEvent("Change", false, false, native.text, native)),
               DeliverEvent(target, HostEvent("Focus", false, false, Undefined, native))])
  {
    Classification("topFocus");
  }

  /** An event for an id with no binding throws in src/dom (the binding is
      dereferenced before the handlers look it up) and is dropped by
      dom/src/dom.js. */
  lemma UnknownEventTarget(views: map<int, BindingView>, types: map<string, ViewType>, falseTypes: set<string>,
                           root: Option<int>, target: int, topLevelType: string, native: NativeEvent)
    requires target !in views
    ensures CallEffect(ClassBased, EventCmd(target, topLevelType, native), views, types, falseTypes, root) == Threw
    ensures CallEffect(Monolith, EventCmd(target, topLevelType, native), views, types, falseTypes, root) == Done([])
  {
  }

  /** `updateChildren` hands the host the diff of the two snapshots, in the
      document's case on the root container. */
  lemma UpdateChildrenManagesDiff(flavour: Flavour, views: map<int, BindingView>, types: map<string, ViewType>,
                                  falseTypes: set<string>, root: Option<int>, id: int, prev: seq<int>, next: seq<int>)
    requires id in views
    ensures CallEffect(flavour, UpdateChildrenCmd(id, prev, next), views, types, falseTypes, root)
      == Done([ManageChildren(if views[id].localName == "#document" then root else Some(id), Diff(prev, next))])
  {
  }

  /** A `setProp` command sends the binding's props as they are when the
      command runs: the value carried by the command is never read. */
  lemma SetPropSendsCurrentProps(flavour: Flavour, views: map<int, BindingView>, types: map<string, ViewType>,
                                 falseTypes: set<string>, root: Option<int>, id: int,
                                 k1: string, v1: Value, k2: string, v2: Value)
    ensures CallEffect(flavour, SetPropCmd(id, k1, v1), views, types, falseTypes, root)
      == CallEffect(flavour, SetPropCmd(id, k2, v2), views, types, falseTypes, root)
  {
  }

  class Binding {
    const id: int
    const localName: string
    const bridge: Bridge
    var props: map<string, Value>
    /** `IS_REMOVED` (src/dom only). */
    var isRemoved: bool

    /** `new Binding(node)` / `createBinding(node)`: draws one id from the
        registry's counter and records the node's name as its type. */
    constructor (bridge: Bridge, localName: string)
      modifies bridge.registry
      ensures this.bridge == bridge && this.localName == localName
      ensures props == map[] && !isRemoved
      ensures bridge.flavour == ClassBased ==>
        id == NextTag(old(bridge.registry.currentBindingId), bridge.registry.root)
        && bridge.registry.currentBindingId == old(bridge.registry.currentBindingId) + 1
      ensures bridge.flavour == Monolith ==>
        id == NextMonolithId(old(bridge.registry.currentBindingId), bridge.registry.root)
        && bridge.registry.currentBindingId == id
      ensures Some(id) != bridge.registry.root
      ensures bridge.registry.bindings == old(bridge.registry.bindings)
      ensures bridge.registry.root == old(bridge.registry.root) && bridge.registry.types == old(bridge.registry.types)
    {
      var tag: int;
      if bridge.flavour == ClassBased {
        tag := bridge.registry.AllocateNewTag();
      } else {
        tag := bridge.registry.AllocateMonolithId();
      }
      id := tag;
      this.bridge := bridge;
      this.localName := localName;
      props := map[];
      isRemoved := false;
    }

    /** `clear()`: one `clear [id]` command; dom/src/dom.js first throws
        away everything still queued. */
    method Clear()
      modifies bridge
      ensures bridge.flavour == ClassBased ==> bridge.Appended(ClearCmd(id))
      ensures bridge.flavour == Monolith ==>
        bridge.queue == [ClearCmd(id)]
        && bridge.processing
        && bridge.tickPending == (old(bridge.tickPending) || !old(bridge.processing))
        && bridge.hostLog == old(bridge.hostLog)
      ensures old(bridge.Valid()) ==> bridge.Valid()
    {
      if bridge.flavour == Monolith {
        bridge.DropQueue();
      }
      bridge.Enqueue(ClearCmd(id));
    }

    /** `create()`: one `create [id, localName]` command. */
    method Create()
      modifies bridge
      ensures bridge.Appended(CreateCmd(id, localName))
      ensures old(bridge.Valid()) ==> bridge.Valid()
    {
      bridge.Enqueue(CreateCmd(id, localName));
    }

    /** `setProp(key, val)`: caches the value and always enqueues, even when
        the cached value is already the same. */
    method SetProp(key: string, val: Value)
      modifies this, bridge
      ensures props == old(props)[key := val]
      ensures GetProp(key) == val
      ensures bridge.Appended(SetPropCmd(id, key, val))
      ensures old(bridge.Valid()) ==> bridge.Valid()
      ensures isRemoved == old(isRemoved)
    {
      props := props[key := val];
      bridge.Enqueue(SetPropCmd(id, key, val));
    }

    /** `getProp(key)`. */
    function GetProp(key: string): Value
      reads this
    {
      PropOf(props, key)
    }

    /** `removeProp(key)`: `Map.delete`, which reports whether the key was
        there; nothing is enqueued. */
    method RemoveProp(key: string) returns (present: bool)
      modifies this
      ensures present == (key in old(props))
      ensures props == old(props) - {key}
      ensures GetProp(key) == Undefined
      ensures isRemoved == old(isRemoved)
    {
      present := key in props;
      props := props - {key};
    }

    /** `getAllProps()`: `Object.entries` of a Map has no entries, so the
        result is always empty whatever is cached. */
    function GetAllProps(): (r: map<string, Value>)
      ensures r == map[]
    {
      map[]
    }

    /** `updateChildren(old, next)`: one command with both snapshots. */
    method UpdateChildren(prev: seq<int>, next: seq<int>)
      modifies bridge
      ensures bridge.Appended(UpdateChildrenCmd(id, prev, next))
      ensures old(bridge.Valid()) ==> bridge.Valid()
    {
      bridge.Enqueue(UpdateChildrenCmd(id, prev, next));
    }
  }

  class Bridge {
    const flavour: Flavour
    const registry: Registry<Binding>
    var queue: seq<Command>
    var processing: bool
    /** A `process` tick is scheduled. */
    var tickPending: bool
    /** The host calls made so far. */
    var hostLog: seq<HostCall>

    /** A non-empty queue is being drained, and a tick is only ever pending
        while draining. */
    ghost predicate Valid()
      reads this
    {
      (queue != [] ==> processing) && (tickPending ==> processing)
    }

    /** After a command threw, `processing` stays set and no tick follows:
        nothing queued afterwards ever runs. */
    predicate Stalled()
      reads this
    {
      processing && !tickPending
    }

    /** The effect of one `enqueue`. */
    twostate predicate Appended(c: Command)
      reads this
    {
      && queue == old(queue) + [c]
      && processing == (old(processing) || old(queue) == [])
      && tickPending == (old(tickPending) || (old(queue) == [] && !old(processing)))
      && hostLog == old(hostLog)
    }

    constructor (flavour: Flavour, registry: Registry<Binding>)
      ensures this.flavour == flavour && this.registry == registry
      ensures queue == [] && !processing && !tickPending && hostLog == []
      ensures Valid()
    {
      this.flavour := flavour;
      this.registry := registry;
      queue := [];
      processing := false;
      tickPending := false;
      hostLog := [];
    }

    /** `enqueue(method, params)`: append; start draining only when this
        push made the length 1 and no drain is running (the root check
        `typeof rootTag != null` always holds). */
    method Enqueue(c: Command)
      modifies this
      ensures Appended(c)
      ensures old(Valid()) ==> Valid()
      ensures old(Stalled()) ==> Stalled()
    {
      queue := queue + [c];
      if |queue| == 1 {
        if !processing {
          processing := true;
          tickPending := true;
        }
      }
    }

    /** `renderQ = []` in dom/src/dom.js `clear()`. */
    method DropQueue()
      modifies this
      ensures queue == [] && processing == old(processing) && tickPending == old(tickPending)
      ensures hostLog == old(hostLog)
      ensures old(Valid()) ==> Valid()
    {
      queue := [];
    }

    /** The registered bindings as `call` sees them. */
    function Views(): map<int, BindingView>
      reads this, registry, registry.bindings.Values
    {
      map id | id in registry.bindings :: BindingView(registry.bindings[id].localName, registry.bindings[id].props)
    }

    /** One scheduled `process` tick: shift the front command and run it,
        then schedule the next tick; on an empty queue clear `processing`.
        A command that throws leaves `processing` set and schedules nothing. */
    method Step() returns (ran: Option<Command>)
      modifies this
      ensures !old(tickPending) ==>
        && ran == None && queue == old(queue) && processing == old(processing)
        && tickPending == old(tickPending) && hostLog == old(hostLog)
      ensures old(tickPending) && old(queue) == [] ==>
        && ran == None && queue == [] && !processing && !tickPending && hostLog == old(hostLog)
      ensures old(tickPending) && old(queue) != [] ==>
        && ran == Some(old(queue)[0])
        && queue == old(queue)[1..]
        && processing == old(processing)
        && var r := CallEffect(flavour, old(queue)[0], Views(), registry.types, registry.falseTypes, registry.root);
          (r.Threw? ==> !tickPending && hostLog == old(hostLog))
          && (r.Done? ==> tickPending && hostLog == old(hostLog) + r.calls)
      ensures old(Valid()) ==> Valid()
      ensures old(Stalled()) ==> Stalled()
    {
      if !tickPending {
        return None;
      }
      tickPending := false;
      if queue == [] {
        processing := false;
        return None;
      }
      var c := queue[0];
      queue := queue[1..];
      ran := Some(c);
      var r := CallEffect(flavour, c, Views(), registry.types, registry.falseTypes, registry.root);
      if r.Done? {
        hostLog := hostLog + r.calls;
        tickPending := true;
      }
    }

    /** `receiveEvent(rootNodeID, topLevelType, nativeEvent)`. */
    method ReceiveEvent(topLevelType: string, native: NativeEvent)
      modifies this
      ensures queue == old(queue) + ReceiveEventCommands(topLevelType, native)
      ensures hostLog == old(hostLog)
      ensures old(Valid()) ==> Valid()
    {
      if native.target.None? || native.target.value == 0 {
        return;
      }
      var id := native.target.value;
      if IsGenericEvent(topLevelType) {
        Enqueue(EventCmd(id, topLevelType, native));
      }
      if IsKeyboardEvent(topLevelType) {
        Enqueue(EventCmd(id, topLevelType, native));
      }
    }

    /** `receiveTouches(eventTopLevelType, touches)`: src/dom drops touches
        on the root; dom/src/dom.js and dom/src/event-responder.js do not. */
    method ReceiveTouches(eventType: string, touches: seq<NativeEvent>)
      modifies this
      ensures flavour == ClassBased ==> queue == old(queue) + ReceiveTouchesCommands(eventType, touches, registry.root)
      ensures flavour == Monolith ==> queue == old(queue) + ResponderTouchesCommands(eventType, touches)
      ensures hostLog == old(hostLog)
      ensures old(Valid()) ==> Valid()
    {
      if touches == [] {
        return;
      }
      var touch := touches[0];
      if touch.target.None? || touch.target.value < 1 {
        return;
      }
      var nodeId := touch.target.value;
      if flavour == ClassBased && Some(nodeId) == registry.root {
        return;
      }
      Enqueue(EventCmd(nodeId, eventType, touch));
    }

    /** `receiveEvent` of dom/src/event-responder.js only logs. */
    method ResponderReceiveEvent(topLevelType: string, native: NativeEvent)
      ensures unchanged(this)
    {
    }
  }

  /** The lazily created style object of an element (src/dom/element.js
      `createStyleBinding`, and the same code in dom/src/dom.js): the map of
      current style keys, and the binding registered under the element's id
      when the style was created. */
  class StyleBinding {
    var current: map<string, Value>
    const target: Binding?

    constructor (target: Binding?)
      ensures current == map[] && this.target == target
    {
      current := map[];
      this.target := target;
    }

    /** `STYLE_PROXY.set(style, key, value)`: record the key, then send the
        whole map as the `style` prop (a new object, `snapshotRef`).  With no
        binding behind the style the owner lookup throws after the key was
        recorded. */
    method Set(key: string, value: Value, snapshotRef: nat) returns (threw: bool)
      modifies this, target, if target != null then {target.bridge} else {}
      ensures current == old(current)[key := value]
      ensures threw <==> target == null
      ensures target != null ==>
        target.props == old(target.props)["style" := Obj(snapshotRef, current)]
        && target.bridge.Appended(SetPropCmd(target.id, "style", Obj(snapshotRef, current)))
    {
      current := current[key := value];
      if target == null {
        return true;
      }
      target.SetProp("style", Obj(snapshotRef, current));
      threw := false;
    }
  }
}
