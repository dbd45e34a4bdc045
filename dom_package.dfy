/** The nodes and events of dom/src/dom (`Node`, `Element`, `EventTarget`,
    `Text`, `DocumentFragment`, `Document`, `Event`) and of the monolithic
    dom/src/dom.js, whose classes are copies of the same code.  One class
    covers both; which generation a node belongs to is the flavour of its
    bridge (`ClassBased` for dom/src/dom, `Monolith` for dom/src/dom.js).
    Unlike src/dom, `insertBefore` does not remove an earlier copy, no
    binding is ever flagged removed, and listeners are kept per node and
    dispatched through the capture, target and bubble phases. */
module DomPackage {
  import opened JsValues
  import opened Commands
  import opened Registry
  import opened Bindings
  import opened ChildIdentity
  import opened ChildOps
  import opened EventRouting
  import opened DomEvents

  function IdOf(n: Node): int {
    n.binding.id
  }

  /** The ids of a children array: what `getChildIndex` compares. */
  function Ids(s: seq<Node>): (r: seq<int>)
    ensures |r| == |s| && forall i :: 0 <= i < |s| ==> r[i] == s[i].binding.id
  {
    Keys(s, IdOf)
  }

  /** `children.find(x => x.nodeType === 3)` as a position, -1 if none. */
  function FirstTextIndex(s: seq<Node>): (r: int)
    ensures -1 <= r < |s|
    ensures r >= 0 ==> s[r].nodeType == Num(TextNode) && forall j :: 0 <= j < r ==> s[j].nodeType != Num(TextNode)
    ensures r == -1 ==> forall j :: 0 <= j < |s| ==> s[j].nodeType != Num(TextNode)
  {
    if s == [] then -1
    else if s[0].nodeType == Num(TextNode) then 0
    else var k := FirstTextIndex(s[1..]); if k == -1 then -1 else k + 1
  }

  /** `parentNode` links from a node up to a node with no parent: the
      `bubblePath` that `dispatchEvent` collects. */
  ghost predicate PathOf(n: Node, chain: seq<Node>)
    reads chain
  {
    && |chain| > 0 && chain[0] == n
    && (forall i :: 0 <= i < |chain| - 1 ==> chain[i].parent == chain[i + 1])
    && chain[|chain| - 1].parent == null
  }

  /** What `fireEvent` finds on a node: `None` when the node has no
      `[LISTENERS]` table (reading it throws), otherwise the list for the
      type, empty when there is none. */
  function TableOf(n: Node, eventType: string): Option<seq<nat>>
    reads n
  {
    if n.hasListeners then Some(n.ListenersFor(eventType)) else None
  }

  function Tables(path: seq<Node>, eventType: string): (r: seq<Option<seq<nat>>>)
    reads path
    ensures |r| == |path| && forall i :: 0 <= i < |path| ==> r[i] == TableOf(path[i], eventType)
  {
    seq(|path|, i reads path requires 0 <= i < |path| => TableOf(path[i], eventType))
  }

  /** An event (dom/src/dom/event.js, `Event` in dom/src/dom.js).  Its
      `isTrusted` is a non-writable false; `timestamp` reads the clock and
      is left out. */
  class Event {
    const eventType: string
    const bubbles: Value
    const cancelable: Value
    const isTrusted: bool
    var target: Node?
    var currentTarget: Node?
    var eventPhase: Value
    var defaultPrevented: Value
    /** `_stopPropagation`, read through the `cancelBubble` getter. */
    var stopPropagationFlag: bool
    var immediatePropagationStopped: bool
    var data: Value
    var nativeEvent: Value

    /** `new Event(type, bubbles, cancelable)`: nothing stopped or
        prevented, no target, no data, and not trusted. */
    constructor (eventType: string, bubbles: Value, cancelable: Value)
      ensures this.eventType == eventType && this.bubbles == bubbles && this.cancelable == cancelable
      ensures !isTrusted && target == null && currentTarget == null && nativeEvent == Null
      ensures FlagState() == Flags(Undefined, Bool(false), false, false)
      ensures !CancelBubble() && data == Undefined
    {
      this.eventType := eventType;
      this.bubbles := bubbles;
      this.cancelable := cancelable;
      isTrusted := false;
      target := null;
      nativeEvent := Null;
      currentTarget := null;
      eventPhase := Undefined;
      defaultPrevented := Bool(false);
      stopPropagationFlag := false;
      immediatePropagationStopped := false;
      data := Undefined;
    }

    /** The fields dispatch reads and writes. */
    function FlagState(): Flags
      reads this
    {
      Flags(eventPhase, defaultPrevented, stopPropagationFlag, immediatePropagationStopped)
    }

    /** `get cancelBubble`. */
    predicate CancelBubble()
      reads this
    {
      stopPropagationFlag
    }

    /** `get returnValue`. */
    function ReturnValue(): Value
      reads this
    {
      defaultPrevented
    }

    twostate predicate OnlyFlagsChanged()
      reads this
    {
      target == old(target) && currentTarget == old(currentTarget) && data == old(data) && nativeEvent == old(nativeEvent)
    }

    /** `set cancelBubble(val)`: only a truthy value does anything. */
    method SetCancelBubble(val: Value)
      modifies this
      ensures FlagState() == ApplyAction(old(FlagState()), DomEvents.SetCancelBubble(val))
      ensures CancelBubble() <==> old(CancelBubble()) || Truthy(val)
      ensures OnlyFlagsChanged()
    {
      if Truthy(val) {
        stopPropagationFlag := true;
      }
    }

    /** `stopPropagation()`. */
    method StopPropagation()
      modifies this
      ensures FlagState() == ApplyAction(old(FlagState()), DomEvents.StopPropagation)
      ensures CancelBubble()
      ensures OnlyFlagsChanged()
    {
      SetCancelBubble(Bool(true));
      stopPropagationFlag := true;
    }

    /** `stopImmediatePropagation()`: `cancelBubble` is left alone. */
    method StopImmediatePropagation()
      modifies this
      ensures FlagState() == ApplyAction(old(FlagState()), DomEvents.StopImmediatePropagation)
      ensures immediatePropagationStopped && CancelBubble() == old(CancelBubble())
      ensures OnlyFlagsChanged()
    {
      immediatePropagationStopped := true;
    }

    /** `preventDefault()`. */
    method PreventDefault()
      modifies this
      ensures FlagState() == ApplyAction(old(FlagState()), DomEvents.PreventDefault)
      ensures defaultPrevented == Bool(true)
      ensures OnlyFlagsChanged()
    {
      defaultPrevented := Bool(true);
    }

    /** `set returnValue(v)`: `v` goes straight into `defaultPrevented`. */
    method SetReturnValue(v: Value)
      modifies this
      ensures FlagState() == ApplyAction(old(FlagState()), DomEvents.SetReturnValue(v))
      ensures ReturnValue() == v
      ensures OnlyFlagsChanged()
    {
      defaultPrevented := v;
    }

    /** One call a listener makes on the event. */
    method Perform(a: Action)
      modifies this
      ensures FlagState() == ApplyAction(old(FlagState()), a)
      ensures OnlyFlagsChanged()
    {
      match a
      case StopPropagation => StopPropagation();
      case StopImmediatePropagation => StopImmediatePropagation();
      case PreventDefault => PreventDefault();
      case SetReturnValue(v) => SetReturnValue(v);
      case SetCancelBubble(v) => SetCancelBubble(v);
    }

    /** A listener's calls on the event, in order. */
    method RunScript(actions: seq<Action>)
      modifies this
      ensures FlagState() == ApplyActions(old(FlagState()), actions)
      ensures OnlyFlagsChanged()
    {
      var i := 0;
      while i < |actions|
        invariant 0 <= i <= |actions|
        invariant FlagState() == ApplyActions(old(FlagState()), actions[..i])
        invariant OnlyFlagsChanged()
      {
        assert actions[..i + 1][..i] == actions[..i];
        Perform(actions[i]);
        i := i + 1;
      }
      assert actions[..i] == actions;
    }
  }

  class Node {
    const localName: string
    /** `_nodeType`; undefined for a fragment, whose `NODE_TYPES` entry
        does not exist. */
    const nodeType: Value
    const binding: Binding
    /** Created with a `[LISTENERS]` table (Elements and Documents). */
    const hasListeners: bool
    /** Has a `dispatchEvent` method: Elements, and the text nodes of
        dom/src/dom, which extend `EventTarget`. */
    const canDispatch: bool
    var children: seq<Node>
    var parent: Node?
    var listeners: map<string, seq<nat>>
    /** `[STYLE]`. */
    var style: StyleBinding?
    /** `[OWNER_NODE]`, set by the dom/src/dom `Document` to itself. */
    var ownerNode: Node?

    /** `new Element(type, reset, nodeType)`: the Node constructor makes and
        registers a binding; then a truthy `reset` enqueues `clear` (which in
        dom/src/dom.js first empties the queue) and `create` always follows.
        `nodeType` falls back to 1. */
    constructor Element(bridge: Bridge, localName: string, reset: Value, nodeType: Value)
      modifies bridge, bridge.registry
      ensures this.localName == localName && this.nodeType == (if Truthy(nodeType) then nodeType else Num(ElementNode))
      ensures hasListeners && canDispatch && listeners == map[]
      ensures children == [] && parent == null && style == null && ownerNode == null
      ensures fresh(binding) && binding.bridge == bridge && binding.localName == localName && binding.props == map[]
      ensures bridge.flavour == ClassBased ==>
        binding.id == NextTag(old(bridge.registry.currentBindingId), bridge.registry.root)
      ensures bridge.flavour == Monolith ==>
        binding.id == NextMonolithId(old(bridge.registry.currentBindingId), bridge.registry.root)
      ensures bridge.registry.bindings == old(bridge.registry.bindings)[binding.id := binding]
      ensures bridge.registry.root == old(bridge.registry.root)
      ensures !Truthy(reset) ==> bridge.queue == old(bridge.queue) + [CreateCmd(binding.id, localName)]
      ensures Truthy(reset) && bridge.flavour == ClassBased ==>
        bridge.queue == old(bridge.queue) + [ClearCmd(binding.id), CreateCmd(binding.id, localName)]
      ensures Truthy(reset) && bridge.flavour == Monolith ==>
        bridge.queue == [ClearCmd(binding.id), CreateCmd(binding.id, localName)]
      ensures bridge.hostLog == old(bridge.hostLog)
      ensures old(bridge.Valid()) ==> bridge.Valid()
    {
      var b := new Binding(bridge, localName);
      bridge.registry.AddBinding(b.id, b);
      this.localName := localName;
      this.nodeType := if Truthy(nodeType) then nodeType else Num(ElementNode);
      binding := b;
      hasListeners := true;
      canDispatch := true;
      children := [];
      parent := null;
      listeners := map[];
      style := null;
      ownerNode := null;
      new;
      if Truthy(reset) {
        b.Clear();
      }
      b.Create();
    }

    /** `new Text(data)`: `create`, then the `text` prop as `String(data)`.
        No listener table; only the dom/src/dom text node (an
        `EventTarget`) has a `dispatchEvent`. */
    constructor Text(bridge: Bridge, data: Value)
      modifies bridge, bridge.registry
      ensures localName == "#text" && nodeType == Num(TextNode)
      ensures !hasListeners && canDispatch == (bridge.flavour == ClassBased) && listeners == map[]
      ensures children == [] && parent == null && style == null && ownerNode == null
      ensures fresh(binding) && binding.bridge == bridge && binding.localName == "#text"
      ensures binding.props == map["text" := Str(ToJsString(data))]
      ensures bridge.flavour == ClassBased ==>
        binding.id == NextTag(old(bridge.registry.currentBindingId), bridge.registry.root)
      ensures bridge.flavour == Monolith ==>
        binding.id == NextMonolithId(old(bridge.registry.currentBindingId), bridge.registry.root)
      ensures bridge.registry.bindings == old(bridge.registry.bindings)[binding.id := binding]
      ensures bridge.registry.root == old(bridge.registry.root)
      ensures bridge.queue == old(bridge.queue)
        + [CreateCmd(binding.id, "#text"), SetPropCmd(binding.id, "text", Str(ToJsString(data)))]
      ensures bridge.hostLog == old(bridge.hostLog)
      ensures old(bridge.Valid()) ==> bridge.Valid()
    {
      var b := new Binding(bridge, "#text");
      bridge.registry.AddBinding(b.id, b);
      localName := "#text";
      nodeType := Num(TextNode);
      binding := b;
      hasListeners := false;
      canDispatch := bridge.flavour == ClassBased;
      children := [];
      parent := null;
      listeners := map[];
      style := null;
      ownerNode := null;
      new;
      b.Create();
      b.SetProp("text", Str(ToJsString(data)));
    }

    /** `new DocumentFragment()` (dom/src/dom only): a bare Node named
        '#fragment'; nothing is enqueued. */
    constructor Fragment(bridge: Bridge)
      requires bridge.flavour == ClassBased
      modifies bridge.registry
      ensures localName == "#fragment" && nodeType == Undefined
      ensures !hasListeners && !canDispatch && listeners == map[]
      ensures children == [] && parent == null && style == null && ownerNode == null
      ensures fresh(binding) && binding.bridge == bridge && binding.localName == "#fragment" && binding.props == map[]
      ensures binding.id == NextTag(old(bridge.registry.currentBindingId), bridge.registry.root)
      ensures bridge.registry.bindings == old(bridge.registry.bindings)[binding.id := binding]
      ensures bridge.registry.root == old(bridge.registry.root)
    {
      var b := new Binding(bridge, "#fragment");
      bridge.registry.AddBinding(b.id, b);
      localName := "#fragment";
      nodeType := Undefined;
      binding := b;
      hasListeners := false;
      canDispatch := false;
      children := [];
      parent := null;
      listeners := map[];
      style := null;
      ownerNode := null;
    }

    /** `new Document()` of dom/src/dom: `super('#document', 9)` hands 9 to
        `reset`, so the document always enqueues `clear` and then `create`,
        and its `nodeType` falls back to 1.  It is its own owner node.  The
        guarded second `clear` never runs: this registry has no
        `bindingsCount`. */
    constructor PackageDocument(bridge: Bridge)
      requires bridge.flavour == ClassBased
      modifies bridge, bridge.registry
      ensures localName == "#document" && nodeType == Num(ElementNode)
      ensures hasListeners && canDispatch && listeners == map[]
      ensures children == [] && parent == null && style == null && ownerNode == this
      ensures fresh(binding) && binding.bridge == bridge && binding.localName == "#document" && binding.props == map[]
      ensures binding.id == NextTag(old(bridge.registry.currentBindingId), bridge.registry.root)
      ensures bridge.registry.bindings == old(bridge.registry.bindings)[binding.id := binding]
      ensures bridge.queue == old(bridge.queue) + [ClearCmd(binding.id), CreateCmd(binding.id, "#document")]
      ensures bridge.hostLog == old(bridge.hostLog)
      ensures old(bridge.Valid()) ==> bridge.Valid()
    {
      var b := new Binding(bridge, "#document");
      bridge.registry.AddBinding(b.id, b);
      localName := "#document";
      nodeType := Num(ElementNode);
      binding := b;
      hasListeners := true;
      canDispatch := true;
      children := [];
      parent := null;
      listeners := map[];
      style := null;
      ownerNode := null;
      new;
      b.Clear();
      b.Create();
      ownerNode := this;
    }

    /** `new Document(rootTag)` of dom/src/dom.js: `ROOT_TAG` is set before
        the binding draws its id; `reset` is true, so the queue is emptied
        and then holds `clear` and `create`; the `nodeType` is 9. */
    constructor MonolithDocument(bridge: Bridge, rootTag: int)
      requires bridge.flavour == Monolith
      modifies bridge, bridge.registry
      ensures localName == "#document" && nodeType == Num(DocumentNode)
      ensures hasListeners && canDispatch && listeners == map[]
      ensures children == [] && parent == null && style == null && ownerNode == null
      ensures fresh(binding) && binding.bridge == bridge && binding.localName == "#document" && binding.props == map[]
      ensures bridge.registry.root == Some(rootTag)
      ensures binding.id == NextMonolithId(old(bridge.registry.currentBindingId), Some(rootTag))
      ensures bridge.registry.currentBindingId == binding.id
      ensures bridge.registry.bindings == old(bridge.registry.bindings)[binding.id := binding]
      ensures bridge.queue == [ClearCmd(binding.id), CreateCmd(binding.id, "#document")]
      ensures bridge.hostLog == old(bridge.hostLog)
      ensures old(bridge.Valid()) ==> bridge.Valid()
    {
      bridge.registry.SetRoot(Some(rootTag));
      var b := new Binding(bridge, "#document");
      bridge.registry.AddBinding(b.id, b);
      localName := "#document";
      nodeType := Num(DocumentNode);
      binding := b;
      hasListeners := true;
      canDispatch := true;
      children := [];
      parent := null;
      listeners := map[];
      style := null;
      ownerNode := null;
      new;
      b.Clear();
      b.Create();
    }

    function ChildIds(): seq<int>
      reads this
    {
      Ids(children)
    }

    /** `firstChild`. */
    function FirstChild(): (r: Node?)
      reads this
      ensures r == null <==> children == []
      ensures r != null ==> r == children[0]
    {
      if |children| > 0 then children[0] else null
    }

    /** `lastChild`. */
    function LastChild(): (r: Node?)
      reads this
      ensures r == null <==> children == []
      ensures r != null ==> r == children[|children| - 1]
    {
      if |children| > 0 then children[|children| - 1] else null
    }

    /** `hasChildNodes()`. */
    predicate HasChildNodes()
      reads this
      ensures HasChildNodes() <==> FirstChild() != null
    {
      |children| > 0
    }

    /** `getChildIndex(this, toFind)` in the form dom.js defines it:
        `findIndex(isSameChild, toFind)`.  A null `toFind` throws on the
        first child it is compared with (`None`), so only on an empty list
        does it come back as -1. */
    function ChildIndex(toFind: Node?): (r: Option<int>)
      reads this
      ensures r.None? <==> toFind == null && children != []
      ensures r.Some? ==> -1 <= r.value < |children|
      ensures toFind != null ==> r == Some(GetChildIndex(Ids(children), IdOf(toFind)))
    {
      if toFind != null then Some(GetChildIndex(Ids(children), IdOf(toFind)))
      else if children == [] then Some(-1)
      else None
    }

    /** `appendChild(node)`: `parent` is set, a copy with the same id is
        spliced out and the node pushed, with one `updateChildren`. */
    method AppendChild(node: Node)
      modifies this, node, binding.bridge
      ensures node.parent == this
      ensures children == Appended(old(children), GetChildIndex(Ids(old(children)), IdOf(node)), node)
      ensures LastChild() == node && FirstChild() != null
      ensures binding.bridge.Appended(UpdateChildrenCmd(binding.id, Ids(old(children)), Ids(children)))
      ensures style == old(style) && listeners == old(listeners) && (node != this ==> parent == old(parent))
      ensures node != this ==> node.children == old(node.children) && node.listeners == old(node.listeners)
      ensures old(binding.bridge.Valid()) ==> binding.bridge.Valid()
    {
      var prev := Ids(children);
      node.parent := this;
      var existing := GetChildIndex(Ids(children), IdOf(node));
      children := Appended(children, existing, node);
      binding.UpdateChildren(prev, Ids(children));
    }

    /** `insertBefore(node, refNode)`: no earlier copy is removed; the node
        goes in at the reference child's index (before the last child when
        the reference is absent), `parent` is set and one `updateChildren`
        is submitted.  A null reference throws unless the list is empty. */
    method InsertBefore(node: Node, refNode: Node?) returns (threw: bool)
      modifies this, node, binding.bridge
      ensures threw <==> old(ChildIndex(refNode)).None?
      ensures threw ==> unchanged(this) && unchanged(node) && unchanged(binding.bridge)
      ensures !threw ==>
        && node.parent == this
        && children == InsertedBefore(old(children), old(ChildIndex(refNode)).value, node)
        && binding.bridge.Appended(UpdateChildrenCmd(binding.id, Ids(old(children)), Ids(children)))
      ensures style == old(style) && listeners == old(listeners) && (node != this ==> parent == old(parent))
      ensures node != this ==> node.children == old(node.children) && node.listeners == old(node.listeners)
      ensures old(binding.bridge.Valid()) ==> binding.bridge.Valid()
    {
      var prev := Ids(children);
      var index := ChildIndex(refNode);
      if index.None? {
        return true;
      }
      node.parent := this;
      children := InsertedBefore(children, index.value, node);
      binding.UpdateChildren(prev, Ids(children));
      threw := false;
    }

    /** `replaceChild(newChild, oldChild)`: the old child's slot is
        overwritten (nothing changes when it is absent); `newChild.parent`
        is not set and `updateChildren` is always submitted. */
    method ReplaceChild(newChild: Node, oldChild: Node?) returns (threw: bool)
      modifies this, binding.bridge
      ensures threw <==> old(ChildIndex(oldChild)).None?
      ensures threw ==> unchanged(this) && unchanged(binding.bridge)
      ensures !threw ==>
        && children == Replaced(old(children), old(ChildIndex(oldChild)).value, newChild)
        && |children| == |old(children)|
        && binding.bridge.Appended(UpdateChildrenCmd(binding.id, Ids(old(children)), Ids(children)))
      ensures parent == old(parent) && style == old(style) && listeners == old(listeners)
      ensures old(binding.bridge.Valid()) ==> binding.bridge.Valid()
    {
      var prev := Ids(children);
      var index := ChildIndex(oldChild);
      if index.None? {
        return true;
      }
      children := Replaced(children, index.value, newChild);
      binding.UpdateChildren(prev, Ids(children));
      threw := false;
    }

    /** `removeChild(node)`: a present node (first copy by id) is spliced
        out with one `updateChildren`; an absent one changes nothing.  No
        `parent` is cleared and nothing is flagged. */
    method RemoveChild(node: Node?) returns (threw: bool)
      modifies this, binding.bridge
      ensures threw <==> old(ChildIndex(node)).None?
      ensures threw ==> unchanged(this) && unchanged(binding.bridge)
      ensures !threw ==>
        var k := old(ChildIndex(node)).value;
        && children == Removed(old(children), k)
        && (k == -1 ==> unchanged(binding.bridge))
        && (k >= 0 ==> binding.bridge.Appended(UpdateChildrenCmd(binding.id, Ids(old(children)), Ids(children))))
      ensures parent == old(parent) && style == old(style) && listeners == old(listeners)
      ensures old(binding.bridge.Valid()) ==> binding.bridge.Valid()
    {
      var prev := Ids(children);
      var index := ChildIndex(node);
      if index.None? {
        return true;
      }
      if index.value > -1 {
        var current := RemoveAt(children, index.value);
        binding.UpdateChildren(prev, Ids(current));
        children := current;
      }
      threw := false;
    }

    /** `getAttribute(key)`. */
    function GetAttribute(key: string): Value
      reads binding
    {
      binding.GetProp(key)
    }

    /** `hasAttribute(key)`: the prop is not undefined. */
    predicate HasAttribute(key: string)
      reads binding
      ensures HasAttribute(key) <==> GetAttribute(key) != Undefined
    {
      binding.GetProp(key) != Undefined
    }

    /** `setAttribute(key, value)`; also the `id` setter with key 'id'. */
    method SetAttribute(key: string, value: Value)
      modifies binding, binding.bridge
      ensures GetAttribute(key) == value
      ensures forall k :: k != key ==> GetAttribute(k) == old(GetAttribute(k))
      ensures HasAttribute(key) <==> value != Undefined
      ensures key == "id" ==> Id() == value
      ensures key != "id" ==> Id() == old(Id())
      ensures binding.bridge.Appended(SetPropCmd(binding.id, key, value))
      ensures old(binding.bridge.Valid()) ==> binding.bridge.Valid()
    {
      binding.SetProp(key, value);
    }

    /** `removeAttribute(key)`: the prop is deleted and nothing is enqueued.
        The binding object that dom/src/dom.js builds in `createBinding` has
        no `removeProp`, so there the call throws a TypeError and the prop
        stays. */
    method RemoveAttribute(key: string) returns (threw: bool)
      modifies binding
      ensures threw <==> binding.bridge.flavour == Monolith
      ensures threw ==> unchanged(binding)
      ensures !threw ==> !HasAttribute(key)
      ensures !threw && key == "id" ==> Id() == Undefined
      ensures forall k :: k != key ==> GetAttribute(k) == old(GetAttribute(k))
    {
      if binding.bridge.flavour == Monolith {
        return true;
      }
      threw := false;
      var _ := binding.RemoveProp(key);
    }

    /** The `id` property reads the 'id' attribute. */
    function Id(): (r: Value)
      reads binding
      ensures r == GetAttribute("id")
    {
      binding.GetProp("id")
    }

    /** The `data` of a text node: its 'text' prop. */
    function Data(): Value
      reads binding
    {
      binding.GetProp("text")
    }

    /** `set data(val)`: one `setProp('text', String(val))`. */
    method SetData(val: Value)
      modifies binding, binding.bridge
      ensures Data() == Str(ToJsString(val))
      ensures binding.props == old(binding.props)["text" := Str(ToJsString(val))]
      ensures binding.bridge.Appended(SetPropCmd(binding.id, "text", Str(ToJsString(val))))
      ensures old(binding.bridge.Valid()) ==> binding.bridge.Valid()
    {
      binding.SetProp("text", Str(ToJsString(val)));
    }

    /** Every child talks to this node's bridge. */
    ghost predicate SharesBridge()
      reads this, children
    {
      forall c :: c in children ==> c.binding.bridge == binding.bridge
    }

    /** `get textContent`: the `data` of the first child with `nodeType` 3;
        with none, reading `.data` of undefined throws (`None`). */
    function TextContent(): (r: Option<Value>)
      reads this, set c | c in children :: c.binding
      ensures r.None? <==> FirstTextIndex(children) == -1
    {
      var i := FirstTextIndex(children);
      if i == -1 then None else Some(children[i].Data())
    }

    /** `set textContent(val)`: the first text child is reused; only when
        there is none a new `Text(val)` is appended.  The text is then
        written once more, and reading `textContent` gives `String(val)`.
        dom/src/dom/element.js uses `Text` without importing it, so there
        the creating branch throws a ReferenceError before anything
        happens. */
    method SetTextContent(val: Value) returns (threw: bool, created: Node?)
      requires SharesBridge()
      modifies this, binding.bridge, binding.bridge.registry, set c | c in children :: c.binding
      ensures threw <==> FirstTextIndex(old(children)) == -1 && binding.bridge.flavour == ClassBased
      ensures threw ==> created == null && unchanged(this) && unchanged(binding.bridge) && unchanged(binding.bridge.registry)
      ensures !threw ==> TextContent() == Some(Str(ToJsString(val)))
      ensures FirstTextIndex(old(children)) >= 0 ==>
        && created == null && children == old(children)
        && binding.bridge.Appended(SetPropCmd(IdOf(children[FirstTextIndex(children)]), "text", Str(ToJsString(val))))
      ensures FirstTextIndex(old(children)) == -1 && !threw ==>
        && created != null && fresh(created)
        && children == Appended(old(children), GetChildIndex(Ids(old(children)), IdOf(created)), created)
        && created.localName == "#text" && created.parent == this
        && binding.bridge.queue == old(binding.bridge.queue)
             + [CreateCmd(created.binding.id, "#text"),
                SetPropCmd(created.binding.id, "text", Str(ToJsString(val))),
                UpdateChildrenCmd(binding.id, Ids(old(children)), Ids(children)),
                SetPropCmd(created.binding.id, "text", Str(ToJsString(val)))]
      ensures parent == old(parent) && style == old(style) && listeners == old(listeners)
      ensures old(binding.bridge.Valid()) ==> binding.bridge.Valid()
    {
      var i := FirstTextIndex(children);
      if i >= 0 {
        RewriteText(i, val);
        threw, created := false, null;
      } else {
        threw, created := AddText(val);
      }
    }

    /** The text child at `i` is the first one: its `data` is written. */
    method RewriteText(i: nat, val: Value)
      requires i < |children| && FirstTextIndex(children) == i
      requires children[i].binding.bridge == binding.bridge
      modifies children[i].binding, binding.bridge
      ensures TextContent() == Some(Str(ToJsString(val)))
      ensures binding.bridge.Appended(SetPropCmd(IdOf(children[i]), "text", Str(ToJsString(val))))
      ensures old(binding.bridge.Valid()) ==> binding.bridge.Valid()
    {
      var textNode := children[i];
      textNode.SetData(val);
    }

    /** No text child: `new Text(val)`, which throws in dom/src/dom where
        `Text` is not in scope; in dom/src/dom.js the new node is appended
        and written once more. */
    method AddText(val: Value) returns (threw: bool, created: Node?)
      requires FirstTextIndex(children) == -1
      modifies this, binding.bridge, binding.bridge.registry
      ensures threw <==> binding.bridge.flavour == ClassBased
      ensures threw ==> created == null && unchanged(this) && unchanged(binding.bridge) && unchanged(binding.bridge.registry)
      ensures !threw ==>
        && created != null && fresh(created)
        && TextContent() == Some(Str(ToJsString(val)))
        && children == Appended(old(children), GetChildIndex(Ids(old(children)), IdOf(created)), created)
        && created.localName == "#text" && created.parent == this
        && binding.bridge.queue == old(binding.bridge.queue)
             + [CreateCmd(created.binding.id, "#text"),
                SetPropCmd(created.binding.id, "text", Str(ToJsString(val))),
                UpdateChildrenCmd(binding.id, Ids(old(children)), Ids(children)),
                SetPropCmd(created.binding.id, "text", Str(ToJsString(val)))]
      ensures parent == old(parent) && style == old(style) && listeners == old(listeners)
      ensures old(binding.bridge.Valid()) ==> binding.bridge.Valid()
    {
      if binding.bridge.flavour == ClassBased {
        return true, null;
      }
      threw := false;
      created := AppendText(val);
    }

    /** `new Text(val)` appended and written once more, where `Text` exists. */
    method AppendText(val: Value) returns (created: Node)
      requires FirstTextIndex(children) == -1
      modifies this, binding.bridge, binding.bridge.registry
      ensures TextContent() == Some(Str(ToJsString(val)))
      ensures fresh(created)
      ensures children == Appended(old(children), GetChildIndex(Ids(old(children)), IdOf(created)), created)
      ensures created.localName == "#text" && created.parent == this
      ensures binding.bridge.queue == old(binding.bridge.queue)
        + [CreateCmd(created.binding.id, "#text"),
           SetPropCmd(created.binding.id, "text", Str(ToJsString(val))),
           UpdateChildrenCmd(binding.id, Ids(old(children)), Ids(children))]
        + [SetPropCmd(created.binding.id, "text", Str(ToJsString(val)))]
      ensures parent == old(parent) && style == old(style) && listeners == old(listeners)
      ensures old(binding.bridge.Valid()) ==> binding.bridge.Valid()
    {
      created := PushText(val);
      ghost var q := binding.bridge.queue;
      ghost var kids, ls := children, listeners;
      WriteText(created, val);
      assert children == kids && listeners == ls;
      assert binding.bridge.queue == q + [SetPropCmd(created.binding.id, "text", Str(ToJsString(val)))];
    }

    /** The second half of `AppendText`: the text of the new last child is
        written once more. */
    method WriteText(created: Node, val: Value)
      requires |children| > 0 && children[|children| - 1] == created
      requires FirstTextIndex(children) == |children| - 1
      requires created.binding.bridge == binding.bridge
      modifies created.binding, binding.bridge
      ensures TextContent() == Some(Str(ToJsString(val)))
      ensures binding.bridge.queue == old(binding.bridge.queue) + [SetPropCmd(created.binding.id, "text", Str(ToJsString(val)))]
      ensures old(binding.bridge.Valid()) ==> binding.bridge.Valid()
    {
      created.SetData(val);
    }

    /** The first half of `AppendText`: `new Text(val)` is made and appended. */
    method PushText(val: Value) returns (created: Node)
      requires FirstTextIndex(children) == -1
      modifies this, binding.bridge, binding.bridge.registry
      ensures fresh(created) && created.localName == "#text" && created.parent == this
      ensures created.binding.bridge == binding.bridge && fresh(created.binding)
      ensures children == Appended(old(children), GetChildIndex(Ids(old(children)), IdOf(created)), created)
      ensures |children| > 0 && children[|children| - 1] == created && FirstTextIndex(children) == |children| - 1
      ensures binding.bridge.queue == old(binding.bridge.queue)
        + [CreateCmd(created.binding.id, "#text"),
           SetPropCmd(created.binding.id, "text", Str(ToJsString(val))),
           UpdateChildrenCmd(binding.id, Ids(old(children)), Ids(children))]
      ensures parent == old(parent) && style == old(style) && listeners == old(listeners)
      ensures old(binding.bridge.Valid()) ==> binding.bridge.Valid()
    {
      created := new Node.Text(binding.bridge, val);
      AppendChild(created);
      FirstTextAfterAppendChild(old(children), GetChildIndex(Ids(old(children)), IdOf(created)), created);
    }

    /** The `style` getter.  In dom/src/dom the style factory's body is
        commented out, so every read yields undefined; in dom/src/dom.js
        the style object is made on first read, bound to the binding
        registered under this node's id, and reused afterwards. */
    method Style() returns (s: StyleBinding?)
      modifies this
      ensures style == s
      ensures binding.bridge.flavour == ClassBased ==> s == null
      ensures binding.bridge.flavour == Monolith && old(style) != null ==> s == old(style)
      ensures binding.bridge.flavour == Monolith && old(style) == null ==>
        && s != null && fresh(s) && s.current == map[]
        && s.target == (match binding.bridge.registry.GetBinding(binding.id) case Some(b) => b case None => null)
      ensures children == old(children) && parent == old(parent) && listeners == old(listeners)
    {
      if binding.bridge.flavour == ClassBased {
        style := null;
      } else if style == null {
        var found := binding.bridge.registry.GetBinding(binding.id);
        var target: Binding? := match found case Some(b) => b case None => null;
        style := new StyleBinding(target);
      }
      s := style;
    }

    /** `set style(cssText)`: writes `String(cssText)` under 'cssText'
        through the style object; with none (always so in dom/src/dom) the
        write throws. */
    method SetStyleText(cssText: Value, snapshotRef: nat) returns (threw: bool)
      modifies style, if style != null && style.target != null then {style.target, style.target.bridge} else {}
      ensures style == null ==> threw
      ensures style != null ==>
        && style.current == old(style.current)["cssText" := Str(ToJsString(cssText))]
        && (threw <==> style.target == null)
        && (style.target != null ==>
            style.target.bridge.Appended(SetPropCmd(style.target.id, "style", Obj(snapshotRef, style.current))))
    {
      if style == null {
        return true;
      }
      threw := style.Set("cssText", Str(ToJsString(cssText)), snapshotRef);
    }

    /** The listener list for a type; empty when there is none. */
    function ListenersFor(eventType: string): seq<nat>
      reads this
    {
      if eventType in listeners then listeners[eventType] else []
    }

    /** `addEventListener(type, fn, options)`: one more record at the end of
        the type's list, duplicates kept, options ignored.  A node without a
        listener table throws. */
    method AddEventListener(eventType: string, fn: nat) returns (threw: bool)
      modifies this
      ensures threw <==> !hasListeners
      ensures threw ==> unchanged(this)
      ensures !threw ==> listeners == old(listeners)[eventType := old(ListenersFor(eventType)) + [fn]]
      ensures ListenersFor(eventType) == (if threw then old(ListenersFor(eventType)) else old(ListenersFor(eventType)) + [fn])
      ensures children == old(children) && parent == old(parent) && style == old(style)
    {
      if !hasListeners {
        return true;
      }
      listeners := listeners[eventType := ListenersFor(eventType) + [fn]];
      threw := false;
    }

    /** `removeEventListener(type, fn)`: the first record holding `fn` is
        spliced out and true returned; false when there is none or no list
        for the type.  A node without a listener table throws. */
    method RemoveEventListener(eventType: string, fn: nat) returns (threw: bool, removed: bool)
      modifies this
      ensures threw <==> !hasListeners
      ensures threw ==> unchanged(this) && !removed
      ensures !threw ==> (removed <==> eventType in old(listeners) && fn in old(listeners)[eventType])
      ensures !removed ==> listeners == old(listeners)
      ensures removed ==>
        var list := old(listeners)[eventType];
        && listeners == old(listeners)[eventType := RemoveAt(list, GetChildIndex(list, fn))]
        && Count(ListenersFor(eventType), fn) == Count(list, fn) - 1
      ensures children == old(children) && parent == old(parent) && style == old(style)
    {
      if !hasListeners {
        return true, false;
      }
      threw := false;
      if eventType !in listeners {
        return false, false;
      }
      var list := listeners[eventType];
      var i := 0;
      while i < |list|
        invariant 0 <= i <= |list|
        invariant fn !in list[..i]
        invariant listeners == old(listeners)
      {
        if list[i] == fn {
          assert GetChildIndex(list, fn) == i;
          CountRemoveAt(list, i, fn);
          listeners := listeners[eventType := RemoveAt(list, i)];
          return false, true;
        }
        assert list[..i + 1] == list[..i] + [list[i]];
        i := i + 1;
      }
      assert list[..i] == list;
      removed := false;
    }

    /** `dispatchEvent(event)`: the event's target becomes this node, the
        path is collected through `parentNode`, and the listeners run as
        `Dispatch` describes; `chain` names the parent links the walk
        follows.  The result is `!defaultPrevented`.  A node without
        `dispatchEvent` (a text node of dom/src/dom.js, a fragment) throws
        at once; a `fireEvent` that throws ends the dispatch. */
    method DispatchEvent(event: Event, script: nat -> Listener, ghost chain: seq<Node>)
      returns (threw: bool, notPrevented: bool, calls: seq<Invocation>)
      requires PathOf(this, chain)
      modifies event
      ensures !canDispatch ==> threw && unchanged(event) && calls == []
      ensures canDispatch ==>
        var d := Dispatch(Start(old(event.FlagState())), old(Tables(chain, event.eventType)), script);
        && event.target == this
        && threw == d.aborted && calls == d.calls && event.FlagState() == d.flags
        && (!threw ==> notPrevented == !d.prevented)
    {
      if !canDispatch {
        return true, false, [];
      }
      event.target := this;
      var path := BubblePath(chain);
      var prevented;
      threw, prevented, calls := RunPath(event, path, script);
      notPrevented := !prevented;
    }

    /** The `parentNode` walk of `dispatchEvent`: this node, then each
        parent in turn, until there is none. */
    method BubblePath(ghost chain: seq<Node>) returns (path: seq<Node>)
      requires PathOf(this, chain)
      ensures path == chain
    {
      path := [];
      var t: Node? := this;
      ghost var n := 0;
      while t != null
        invariant 0 <= n <= |chain| && path == chain[..n]
        invariant t == (if n < |chain| then chain[n] else null)
        decreases |chain| - n
      {
        path := path + [t];
        t := t.parent;
        n := n + 1;
      }
      assert path == chain;
    }

    // The four factories below are methods of the document classes only
    // (dom/src/dom/document.js:20-34 and `Document` of dom/src/dom.js).  They
    // read nothing of the document: the new node joins the package's one
    // bridge, which the model reaches through `binding.bridge`, so they are
    // stated on any node and the node only supplies that bridge.

    /** `createElement(t)`: a new Element named `t`, nothing reset. */
    method CreateElement(t: string) returns (e: Node)
      modifies binding.bridge, binding.bridge.registry
      ensures fresh(e) && e.localName == t && e.nodeType == Num(ElementNode) && e.binding.bridge == binding.bridge
      ensures binding.bridge.queue == old(binding.bridge.queue) + [CreateCmd(e.binding.id, t)]
      ensures old(binding.bridge.Valid()) ==> binding.bridge.Valid()
    {
      e := new Node.Element(binding.bridge, t, Undefined, Undefined);
    }

    /** `createTextNode(d)`: a new Text whose `data` is `String(d)`. */
    method CreateTextNode(d: Value) returns (n: Node)
      modifies binding.bridge, binding.bridge.registry
      ensures fresh(n) && n.localName == "#text" && n.Data() == Str(ToJsString(d)) && n.binding.bridge == binding.bridge
      ensures binding.bridge.queue == old(binding.bridge.queue)
        + [CreateCmd(n.binding.id, "#text"), SetPropCmd(n.binding.id, "text", Str(ToJsString(d)))]
      ensures old(binding.bridge.Valid()) ==> binding.bridge.Valid()
    {
      n := new Node.Text(binding.bridge, d);
    }

    /** `createDocumentFragment()` (dom/src/dom only). */
    method CreateDocumentFragment() returns (f: Node)
      requires binding.bridge.flavour == ClassBased
      modifies binding.bridge.registry
      ensures fresh(f) && f.localName == "#fragment" && f.children == [] && f.binding.bridge == binding.bridge
    {
      f := new Node.Fragment(binding.bridge);
    }

    /** `createEvent()` (dom/src/dom only): an event of type ''. */
    method CreateEvent() returns (e: Event)
      requires binding.bridge.flavour == ClassBased
      ensures fresh(e) && e.eventType == "" && e.bubbles == Undefined && e.cancelable == Undefined
      ensures e.FlagState() == Flags(Undefined, Bool(false), false, false) && !e.isTrusted
    {
      e := new Event("", Undefined, Undefined);
    }
  }

  /** `fireEvent(event, target, phase)`: the target's list for the type is
      copied and each listener run in order with the phase and current
      target set; a `false` return sets `defaultPrevented`, a throw is put
      aside, `defaultPrevented === true` afterwards is reported, and an
      immediate stop ends the loop after the current listener.  `node` is
      the target's position on the path; the calls made are appended to
      `calls0`. */
  method FireEvent(event: Event, target: Node, node: nat, phase: int, script: nat -> Listener, calls0: seq<Invocation>)
    returns (threw: bool, prevented: bool, calls: seq<Invocation>)
    modifies event
    ensures event.target == old(event.target)
    ensures TableOf(target, event.eventType).None? ==> threw && calls == calls0 && unchanged(event)
    ensures TableOf(target, event.eventType).Some? ==>
      var list := TableOf(target, event.eventType).value;
      var f := FirePrefix(FireState(old(event.FlagState()), calls0, false, false), list, |list|, node, phase, script);
      && !threw && event.FlagState() == f.flags && calls == f.calls && prevented == f.local
  {
    if !target.hasListeners {
      return true, false, calls0;
    }
    var items := target.ListenersFor(event.eventType);
    ghost var start := FireState(event.FlagState(), calls0, false, false);
    threw := false;
    prevented := false;
    calls := calls0;
    var k := 0;
    while k < |items|
      invariant 0 <= k <= |items|
      invariant var p := FirePrefix(start, items, k, node, phase, script);
        event.FlagState() == p.flags && calls == p.calls && prevented == p.local && !p.broke
      invariant event.target == old(event.target)
    {
      event.eventPhase := Num(phase);
      event.currentTarget := target;
      var l := script(items[k]);
      event.RunScript(l.actions);
      if l.outcome == Returns(Bool(false)) {
        event.defaultPrevented := Bool(true);
      }
      var now := event.defaultPrevented == Bool(true);
      calls := calls + [Invocation(node, phase, items[k], l.outcome.Throws?, now)];
      prevented := prevented || now;
      k := k + 1;
      if event.immediatePropagationStopped {
        BrokeStays(start, items, k, |items|, node, phase, script);
        return;
      }
    }
  }

  /** The capture loop of `dispatchEvent`: `fireEvent` on the path from the
      root down to the target's parent, ending at the first one that
      throws. */
  method RunCapture(event: Event, path: seq<Node>, script: nat -> Listener)
    returns (threw: bool, prevented: bool, calls: seq<Invocation>)
    requires |path| > 0
    modifies event
    ensures var c := Capture(Start(old(event.FlagState())), old(Tables(path, event.eventType)), |path| - 1, script);
      && threw == c.aborted && event.FlagState() == c.flags && calls == c.calls && prevented == c.prevented
    ensures event.target == old(event.target)
  {
    ghost var f0 := event.FlagState();
    ghost var tables := Tables(path, event.eventType);
    ghost var st := Start(f0);
    prevented := false;
    calls := [];
    var i := |path| - 1;
    while i > 0
      invariant 0 <= i <= |path| - 1
      invariant st == Capture(Start(f0), tables, |path| - 1 - i, script)
      invariant !st.aborted && event.FlagState() == st.flags && calls == st.calls && prevented == st.prevented
      invariant event.target == old(event.target)
    {
      var th;
      th, prevented, calls, st := FireOnPath(event, path, i, EventPhaseCapture, script, tables, st, prevented, calls);
      assert st == Capture(Start(f0), tables, |path| - i, script);
      if th {
        CaptureAbortStays(Start(f0), tables, |path| - i, |path| - 1, script);
        return true, prevented, calls;
      }
      i := i - 1;
    }
    threw := false;
  }

  /** Both loops of `dispatchEvent` and the target between them, on a
      path already built: exactly `Dispatch`. */
  method RunPath(event: Event, path: seq<Node>, script: nat -> Listener)
    returns (threw: bool, prevented: bool, calls: seq<Invocation>)
    requires |path| > 0
    modifies event
    ensures var d := Dispatch(Start(old(event.FlagState())), old(Tables(path, event.eventType)), script);
      && threw == d.aborted && calls == d.calls && event.FlagState() == d.flags
      && (!threw ==> prevented == d.prevented)
    ensures event.target == old(event.target)
  {
    ghost var f0 := event.FlagState();
    ghost var tables := Tables(path, event.eventType);
    threw, prevented, calls := RunCapture(event, path, script);
    if threw {
      BubbleAbortStays(ThroughTarget(Start(f0), tables, script), tables, 0, |path| - 1, script);
      return;
    }
    threw, prevented, calls := TargetThenBubble(event, path, script, calls, prevented);
  }

  /** One turn of either loop of `dispatchEvent`: `fireEvent` on `path[i]`
      is exactly `FireAt` on the path's tables. */
  method FireOnPath(event: Event, path: seq<Node>, i: nat, phase: int, script: nat -> Listener,
                    ghost tables: seq<Option<seq<nat>>>, ghost st: DState, prevented0: bool, calls0: seq<Invocation>)
    returns (threw: bool, prevented: bool, calls: seq<Invocation>, ghost st': DState)
    requires i < |path| && tables == Tables(path, event.eventType)
    requires !st.aborted && event.FlagState() == st.flags && calls0 == st.calls && prevented0 == st.prevented
    modifies event
    ensures st' == FireAt(st, tables, i, phase, script)
    ensures threw == st'.aborted && event.FlagState() == st'.flags && calls == st'.calls && prevented == st'.prevented
    ensures event.target == old(event.target)
  {
    var p;
    assert tables[i] == TableOf(path[i], event.eventType);
    threw, p, calls := FireEvent(event, path[i], i, phase, script, calls0);
    st' := FireAt(st, tables, i, phase, script);
    prevented := if threw then prevented0 else prevented0 || p;
  }

  /** The rest of `dispatchEvent` once the capture loop is through:
      `fireEvent` at the target, then, unless `cancelBubble` is set by
      now, the bubble loop. */
  method TargetThenBubble(event: Event, path: seq<Node>, script: nat -> Listener, calls0: seq<Invocation>, prevented0: bool)
    returns (threw: bool, prevented: bool, calls: seq<Invocation>)
    requires |path| > 0
    modifies event
    ensures var t := FireAt(DState(old(event.FlagState()), calls0, prevented0, false), old(Tables(path, event.eventType)), 0, EventPhaseAtTarget, script);
      var d := if t.flags.cancelBubble then t else Bubble(t, old(Tables(path, event.eventType)), |path| - 1, script);
      && threw == d.aborted && event.FlagState() == d.flags && calls == d.calls && prevented == d.prevented
    ensures event.target == old(event.target)
  {
    ghost var tables := Tables(path, event.eventType);
    ghost var t := FireAt(DState(event.FlagState(), calls0, prevented0, false), tables, 0, EventPhaseAtTarget, script);
    assert tables[0] == TableOf(path[0], event.eventType);
    var p;
    threw, p, calls := FireEvent(event, path[0], 0, EventPhaseAtTarget, script, calls0);
    prevented := prevented0 || p;
    assert event.FlagState() == t.flags && calls == t.calls && threw == t.aborted;
    if threw {
      BubbleAbortStays(t, tables, 0, |path| - 1, script);
      return true, prevented0, calls;
    }
    if !event.CancelBubble() {
      threw, prevented, calls := RunBubble(event, path, script, calls, prevented);
    }
  }

  /** The bubble loop of `dispatchEvent`: `fireEvent` on the target's
      parent and up to the root, ending at the first one that throws. */
  method RunBubble(event: Event, path: seq<Node>, script: nat -> Listener, calls0: seq<Invocation>, prevented0: bool)
    returns (threw: bool, prevented: bool, calls: seq<Invocation>)
    requires |path| > 0
    modifies event
    ensures var b := Bubble(DState(old(event.FlagState()), calls0, prevented0, false), old(Tables(path, event.eventType)), |path| - 1, script);
      && threw == b.aborted && event.FlagState() == b.flags && calls == b.calls && prevented == b.prevented
    ensures event.target == old(event.target)
  {
    ghost var t0 := DState(event.FlagState(), calls0, prevented0, false);
    ghost var tables := Tables(path, event.eventType);
    ghost var st := t0;
    prevented := prevented0;
    calls := calls0;
    var i := 1;
    while i < |path|
      invariant 1 <= i <= |path|
      invariant st == Bubble(t0, tables, i - 1, script)
      invariant !st.aborted && event.FlagState() == st.flags && calls == st.calls && prevented == st.prevented
      invariant event.target == old(event.target)
    {
      var th;
      th, prevented, calls, st := FireOnPath(event, path, i, EventPhaseBubble, script, tables, st, prevented, calls);
      assert st == Bubble(t0, tables, i, script);
      if th {
        BubbleAbortStays(t0, tables, i, |path| - 1, script);
        return true, prevented, calls;
      }
      i := i + 1;
    }
    threw := false;
  }

  /** `createDOM(rootTag)` of dom/src/dom.js: the id counter and the binding
      map are reset and a document made; the queue then holds exactly its
      `clear` and `create`, and its id is 1, or 2 when the root tag is 1. */
  method CreateDom(bridge: Bridge, rootTag: int) returns (doc: Node)
    requires bridge.flavour == Monolith
    modifies bridge, bridge.registry
    ensures fresh(doc) && doc.localName == "#document" && doc.binding.bridge == bridge
    ensures doc.binding.id == (if rootTag == 1 then 2 else 1)
    ensures bridge.registry.bindings == map[doc.binding.id := doc.binding]
    ensures bridge.registry.currentBindingId == doc.binding.id && bridge.registry.root == Some(rootTag)
    ensures bridge.queue == [ClearCmd(doc.binding.id), CreateCmd(doc.binding.id, "#document")]
    ensures old(bridge.Valid()) ==> bridge.Valid()
  {
    bridge.registry.Reset();
    doc := new Node.MonolithDocument(bridge, rootTag);
  }

  /** After `appendChild` of a text node to a list with no text node, the
      first text node is the appended one, at the end. */
  lemma FirstTextAfterAppendChild(s: seq<Node>, k: int, t: Node)
    requires -1 <= k < |s| && FirstTextIndex(s) == -1 && t.nodeType == Num(TextNode)
    ensures var r := Appended(s, k, t); |r| > 0 && r[|r| - 1] == t && FirstTextIndex(r) == |r| - 1
  {
    var kept := if k >= 0 then RemoveAt(s, k) else s;
    forall j | 0 <= j < |kept|
      ensures kept[j].nodeType != Num(TextNode)
    {
      if k >= 0 && j >= k {
        assert kept[j] == s[j + 1];
      } else {
        assert kept[j] == s[j];
      }
    }
    FirstTextAfterAppend(kept, t);
  }

  lemma {:induction false} FirstTextAfterAppend(s: seq<Node>, t: Node)
    requires forall j :: 0 <= j < |s| ==> s[j].nodeType != Num(TextNode)
    requires t.nodeType == Num(TextNode)
    ensures FirstTextIndex(s + [t]) == |s|
  {
    if s != [] {
      FirstTextAfterAppend(s[1..], t);
      assert (s + [t])[1..] == s[1..] + [t];
    }
  }

}
