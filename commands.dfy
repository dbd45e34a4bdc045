/** The commands a binding appends to the bridge queue, and the calls the
    bridge makes on the native host when it runs them.  Host calls
    (`UIManager.createView`, `updateView`, `manageChildren` and the delivery
    of an event to a node) are recorded, not performed. */
module Commands {
  import opened JsValues
  import opened ChildrenDiff

  /** The part of a native event or touch the core reads: the target tag
      (absent when the host sends none) and the `text` field. */
  datatype NativeEvent = NativeEvent(target: Option<int>, text: Value)

  /** One queue entry `{method, params}`. Children snapshots are kept as
      the children's binding ids, which is all the diff looks at. */
  datatype Command =
    | ClearCmd(id: int)
    | CreateCmd(id: int, localName: string)
    | SetPropCmd(id: int, key: string, value: Value)
    | UpdateChildrenCmd(id: int, prev: seq<int>, next: seq<int>)
    | EventCmd(target: int, topLevelType: string, native: NativeEvent)

  /** The event a binding builds before handing it to its node. */
  datatype HostEvent = HostEvent(eventType: string, bubbles: bool, cancelable: bool, data: Value, native: NativeEvent)

  /** A call the bridge makes on the host. */
  datatype HostCall =
    | ClearRoot(root: Option<int>)
    | CreateView(tag: int, viewClass: string, root: Option<int>, initialText: Option<Value>)
    | UpdateText(tag: int, text: Value)
    | UpdateProps(tag: int, viewClass: string, props: map<string, Value>)
    | ManageChildren(container: Option<int>, ops: ManageOps)
    | DeliverEvent(tag: int, event: HostEvent)

  /** `binding.dispatchEvent({type, event})` (src/dom/binding.js and
      dom/src/dom.js `createBinding`): the event is neither bubbling nor
      cancelable, and only a Change carries the native `text` as `data`. */
  function BindingEvent(eventType: string, native: NativeEvent): (e: HostEvent)
    ensures e.eventType == eventType && e.native == native
    ensures !e.bubbles && !e.cancelable
    ensures e.data == if eventType == "Change" then native.text else Undefined
  {
    HostEvent(eventType, false, false, if eventType == "Change" then native.text else Undefined, native)
  }

  /** `binding.getProp(k)` on a props map; undefined when absent. */
  function PropOf(props: map<string, Value>, key: string): Value {
    if key in props then props[key] else Undefined
  }
}
