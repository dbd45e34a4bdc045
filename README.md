# preact-native DOM core, modelled in Dafny

preact-native renders Preact components onto React Native by giving them a
small DOM. Nodes, elements and text nodes keep their own `children` and
`parentNode`. Each node owns a *binding*, a record with a numeric id, a map
of props and a reference to a *bridge*. The binding turns every DOM mutation
into a command (`clear`, `create`, `setProp`, `updateChildren`, `event`, …)
appended to the bridge's queue. A scheduled `process` loop shifts commands
off the queue and turns each one into calls on the native host: for
example, `UIManager.createView` and `UIManager.manageChildren` with a diff
of the old and new children. Events travel the other way. The host reports
a native event by tag. The bridge enqueues an `event` command, and when
that command runs, a DOM `Event` is dispatched through a capture and a
bubble phase over the node's parent chain.

The repository holds four generations of this design. Each has its own
module here:

* **src/dom** (`SrcDom`, with `Bindings`, `Registry`, `EventRouting`,
  `ChildrenDiff`, `UndomUtil`): class-based nodes and bindings, a registry
  object that allocates tags, and an `updateChildren` diff run by the
  bridge.
* **dom/src/dom** and the monolithic **dom/src/dom.js** (`DomPackage`, with
  `DomEvents`): the same node code, event targets with listener lists, and
  a synchronous `dispatchEvent`. These two differ from each other and from
  src/dom in where the binding ids start, whether `clear` drops the queue,
  whether a text node can dispatch, and how the style object is made. The
  `Flavour` parameter of the bridge (`ClassBased`/`Monolith`) and the named
  constructors record these differences.
* **dom/src/index.js**, **src/native-dom/bridge.js** and
  **src/native-dom/index.js** (`NativeDom`, with `NativeEvents`): bindings
  whose props are an insertion-ordered `Map` and that skip unchanged
  values. The queue is polled and only starts once rendering has started.
  Listeners carry option flags, and a "once" check removes registrations
  after they fire. The `Generation` parameter says which of the three files
  is meant.

The model is imperative where the source is. Nodes, bindings, bridges,
registries, events and style objects are classes whose methods change
their fields. Every such method states its whole new state.

The pure parts are datatypes and functions, and lemmas state what they
promise. These parts are:

* the children diff;
* the id allocation;
* the classification of host events;
* the list operations with JavaScript `slice`/`splice` semantics;
* the whole event dispatch (`Dispatch`, `NDispatch`).

The `dispatchEvent` methods and their loops are proved equal to these
dispatch functions. Lemmas then show what the dispatch guarantees: call
order, phases, stickiness of the stop flags, the result, and once-removal.

Listeners are not executable code here. A listener is a number, and a
`script` parameter gives the event calls that listener makes, whether it
returns `false`, and whether it throws.

Host effects are data. `UIManager` calls, `setNativeProps` and event
deliveries are recorded in a `hostLog`; they are not performed.

## Model

| member | source | states |
|---|---|---|
| JsValues.StrictEqualsReflexive | src/native-dom/bridge.js:87-92 | every modelled value is `===` to itself (there is no NaN), so writing back the value a prop already holds is a no-op |
| ChildIdentity.GetChildIndex | src/dom/utils.js:3-9 | the index is -1 exactly when no child has the id; otherwise it is the first child with the same binding id, and no earlier child has that id |
| ChildOps.SliceBound | dom/src/dom/node.js:62-71 | a `slice` bound is clamped to the list; a negative bound counts from the end, which is how the -1 of a missing reference child becomes "before the last child" |
| ChildOps.AppendMovesToEnd | src/dom/node.js:96-115 | after `appendChild` the node is last; if it was absent the list just grows by it; a node already present (by id) is taken out of its old place and the others keep their order; the number of copies becomes 1 if it was 0 and otherwise stays the same |
| ChildOps.InsertedBeforeShape | dom/src/dom/node.js:62-71 | `insertBefore` without de-duplication adds exactly one element: before the reference child when it is found, and before the last child when it is not; an id already present is then present once more |
| ChildOps.InsertedBeforeDedupShape | src/dom/node.js:62-87 | the src/dom `insertBefore` puts the node into the list without its old copy and keeps the order of the others; a node that sat before the reference child ends up just after it, and an absent node or one after it ends up just before it |
| ChildOps.InsertedBeforeDedupEdges | src/dom/node.js:62-87 | a node inserted before itself stays in its own slot; a reference index of -1 puts the node before the last remaining child, or alone in an empty list |
| ChildOps.RemovedDropsOneCopy | src/dom/node.js:117-127 | `removeChild` takes out exactly one copy of a present child and leaves the list unchanged when the child is absent |
| ChildrenDiff.ComputeDiff | src/dom/bridge.js:120-148 | the two `forEach` passes compute exactly `Diff(prev, next)` |
| ChildrenDiff.AddsExact | src/dom/bridge.js:130-136 | the insertions are exactly the positions of `next` whose id is missing from `prev`, in ascending order, each paired with its id |
| ChildrenDiff.RemovesExact | src/dom/bridge.js:138-148 | the deletions are exactly the positions of `prev` whose id is missing from `next`, in ascending order |
| ChildrenDiff.MovesExact | src/dom/bridge.js:138-148 | a move (i, j) is reported exactly when the id at old position i first occurs in `next` at a different position j; the old positions are ascending |
| ChildrenDiff.SelfDiffEmptyIffDistinct | src/dom/bridge.js:130-148 | diffing a list against itself reports nothing exactly when no id repeats; a repeated id shows up as a move of its later copy |
| ChildrenDiff.RotationReportsEveryChild | src/dom/bridge.js:138-148 | moving the first of three children to the end reports three moves (0→2, 1→0, 2→1), not a single one |
| EventRouting.Classification | src/dom/bridge.js:310-334 | 'topTouchEnd' maps to Click, 'topEndEditing' to Change, 'topBlur' to Blur, and 'topFocus' to Change followed by Focus; any other name maps to nothing, and only 'topFocus' maps to two events |
| EventRouting.ReceiveEventCounts | src/dom/bridge.js:336-349 | a native event without a target, or with target 0, enqueues nothing; with one, 'topFocus' enqueues the same `event` command twice, 'topBlur' or 'topEndEditing' once, and every other name (including 'topTouchEnd') not at all |
| EventRouting.ReceiveTouchesCommands | src/dom/bridge.js:351-369 | `receiveTouches` enqueues at most one command |
| EventRouting.ResponderTouchesCommands | dom/src/event-responder.js:9-28 | the responder's `receiveTouches` enqueues at most one command |
| EventRouting.TouchesUseFirstTouchOnly | src/dom/bridge.js:351-369 | only the first touch matters; a command is enqueued exactly when its target is at least 1 (and, in src/dom only, not the root); the command carries that tag, the event name and the touch; src/dom enqueues the same command as the responder whenever it enqueues one |
| Registry.Tags | src/dom/registry.js:62-68 | n successive `allocateNewTag` calls yield n tags |
| Registry.TagsAt | src/dom/registry.js:62-68 | the k-th tag is what one allocation gives with the counter advanced k times |
| Registry.TagsAvoidRoot | src/dom/registry.js:62-68 | `allocateNewTag` never returns the root tag |
| Registry.TagsDistinctIff | src/dom/registry.js:62-68 | successive tags are pairwise distinct exactly when the root tag does not fall strictly inside the counter's range: after skipping the root, the next call returns root + 1 again |
| Registry.DuplicateAfterRootSkip | src/dom/registry.js:62-68 | with the counter at 2 and the root tag 3, two allocations both return 4 |
| Registry.MonolithIds | dom/src/dom.js:550-555 | n successive dom.js allocations yield n ids |
| Registry.MonolithIdsIncrease | dom/src/dom.js:550-555 | dom.js ids lie above the starting counter, increase strictly and never equal the root tag |
| Registry.LookupIsLastAdded | src/dom/registry.js:44-54 | after any history of `addBinding`/`clearBindings` on an empty registry, `getBinding(id)` is the binding most recently added under id since the last clear, or undefined if there is none |
| Registry.Registry.ForSrcDom | src/dom/registry.js:1-29 | a new src/dom registry has its counter at 2, no bindings, no root, the `TYPES` table and the `FALSE_TYPES` names |
| Registry.Registry.ForDomPackage | dom/src/dom/registry.js:1-18 | a new dom/src/dom registry (and the module state of dom.js) has its counter at 0, no bindings, no root and the `TYPES` table |
| Registry.Registry.SetRoot | src/dom/registry.js:31-37 | `set root` changes the root tag and nothing else |
| Registry.Registry.Reset | src/dom/registry.js:39-42 | `reset` sets the counter to 0 and empties the map; root and types stay |
| Registry.Registry.AddBinding | src/dom/registry.js:44-46 | `addBinding` maps the binding's id to it and changes nothing else; `bindingsCount` grows by one exactly when the id was not registered |
| Registry.Registry.GetBinding | src/dom/registry.js:48-50 | `getBinding` returns the registered binding if there is one and undefined otherwise |
| Registry.Registry.ClearBindings | src/dom/registry.js:52-54 | `clearBindings` empties the map and changes nothing else |
| Registry.Registry.SetBindingsCount | src/dom/registry.js:60 | assigning `bindingsCount` changes nothing |
| Registry.Registry.AllocateNewTag | src/dom/registry.js:62-68 | `allocateNewTag` advances the counter by exactly one and returns the next tag, which is never the root; the tag skips the root but the counter does not |
| Registry.Registry.AllocateMonolithId | dom/src/dom.js:550-555 | the dom.js allocation moves the counter past the root too, and returns the new counter value, which is above the old one and is not the root |
| Registry.Registry.RegisterHostElement | src/dom/registry.js:69-80 | `registerHostElement` records the name with itself as type and the native component as host component (`nativeHost`), or with the native component as type; other names stay |
| Bindings.Deliveries | src/dom/bridge.js:174-198 | `handleEvent` delivers one DOM event per matching classifier |
| Bindings.TopFocusDeliversChangeThenFocus | src/dom/bridge.js:174-235 | a 'topFocus' command for a registered node delivers two events: first a Change carrying the native text, then a Focus |
| Bindings.UnknownEventTarget | src/dom/bridge.js:64-68 | an `event` command for an unregistered id throws in src/dom, because the binding is dereferenced first; dom.js drops it silently |
| Bindings.UpdateChildrenManagesDiff | src/dom/bridge.js:120-165 | an `updateChildren` command makes exactly one `manageChildren` call, carrying the diff of the two snapshots; it goes to the root tag for the document and to the binding's own id otherwise |
| Bindings.SetPropSendsCurrentProps | src/dom/bridge.js:113-119 | a `setProp` command sends the props the binding holds when the command runs; the key and value carried by the command make no difference |
| Bindings.Binding.constructor | src/dom/binding.js:19-25 | a new binding takes the next tag from the registry (the dom.js id in the monolith) and starts with no props; it is never the root |
| Bindings.Binding.Clear | src/dom/binding.js:27-29 | `clear` appends one `clear` command; in dom.js the queue is first emptied, so it ends up holding only that command |
| Bindings.Binding.Create | src/dom/binding.js:31-33 | `create` appends one `create` command with the id and name |
| Bindings.Binding.SetProp | src/dom/binding.js:35-38 | `setProp` caches the value, so it reads back, and always appends a `setProp` command, even when the value is unchanged |
| Bindings.Binding.RemoveProp | src/dom/binding.js:44-46 | `removeProp` deletes the key, so it reads back undefined, reports whether the key was there, and enqueues nothing |
| Bindings.Binding.UpdateChildren | src/dom/binding.js:56-58 | `updateChildren` appends one command with both snapshots |
| Bindings.Bridge.constructor | src/dom/bridge.js:27-38 | a new bridge has an empty queue, is not processing, and has no tick pending and no host calls |
| Bindings.Bridge.Enqueue | src/dom/bridge.js:47-62 | `enqueue` appends the command; it starts draining only when the queue was empty and nothing was draining, and it keeps the queue invariant and a stalled bridge stalled |
| Bindings.Bridge.DropQueue | dom/src/dom.js:561-564 | dom.js `clear` empties the queue and leaves the drain state alone |
| Bindings.Bridge.Step | src/dom/bridge.js:387-402 | a `process` tick shifts the front command and runs `call` on it, then schedules the next tick; on an empty queue it clears `processing`; a command that throws leaves `processing` set and schedules nothing, so the bridge stays stalled |
| Bindings.Bridge.ReceiveEvent | src/dom/bridge.js:336-349 | `receiveEvent` appends exactly the commands `ReceiveEventCommands` lists and calls nothing on the host |
| Bindings.Bridge.ReceiveTouches | src/dom/bridge.js:351-373 | `receiveTouches` appends the touch command (src/dom also drops touches on the root; dom.js does not) |
| Bindings.Bridge.ResponderReceiveEvent | dom/src/event-responder.js:4-7 | the responder's `receiveEvent` only logs and changes nothing |
| Bindings.StyleBinding.constructor | src/dom/element.js:125-133 | a new style object has no keys and writes through the binding it is given, which is missing when the node's id has no binding |
| Bindings.StyleBinding.Set | src/dom/element.js:142-147 | setting a style key records it and sends the whole current style as the `style` prop; with no binding behind the style it throws after recording the key |
| SrcDom.SvgRun | src/dom/svg-element.js:14-22 | counts the unbroken run of SVG elements from a position of the parent chain |
| SrcDom.OwnerSvgOf | src/dom/svg-element.js:14-22 | `ownerSVGElement` is null exactly when the parent is missing or not an SVG element; otherwise it is the farthest ancestor of the unbroken SVG run above the node, and never the node itself |
| SrcDom.FirstTextIndex | src/dom/element.js:36-47 | the position of the first child with `nodeType` 3, or -1 when there is none |
| SrcDom.ChildIndexById | src/dom/utils.js:3-9 | `getChildIndex` on nodes is the first child sharing the node's binding id, and -1 exactly when none does |
| SrcDom.Node.Element | src/dom/element.js:18-24 | a new element in the XHTML namespace with no children and a fresh, registered binding; one `create` is enqueued |
| SrcDom.Node.SVGElement | src/dom/svg-element.js:10-12 | a new element in the SVG namespace, otherwise as `Element` |
| SrcDom.Node.Text | dom/src/dom/text.js:5-9 | a new text node whose `text` prop is `String(data)`; `create` and then `setProp` are enqueued |
| SrcDom.Node.HasChildNodes | src/dom/node.js:53-55 | `hasChildNodes` agrees with `firstChild` being non-null |
| SrcDom.Node.AppendChild | src/dom/node.js:96-115 | `parent` is set first; a node whose binding was removed then throws, with the list unchanged; otherwise the node is moved to the end and one `updateChildren` with both snapshots is enqueued; the node is then the `lastChild` |
| SrcDom.Node.InsertBefore | src/dom/node.js:62-87 | a null node does nothing; a null reference is exactly `appendChild`; otherwise it is `InsertBeforeRef` |
| SrcDom.Node.InsertBeforeRef | src/dom/node.js:70-87 | a node whose binding was removed throws before anything changes; otherwise the node is placed by the de-duplicating slices, its `parent` is set and one `updateChildren` is enqueued |
| SrcDom.Node.ChildIndex | src/dom/utils.js:3-9 | `getChildIndex` is the first index with the same binding id; a null argument throws unless the list is empty, where the result is -1 |
| SrcDom.Node.ReplaceChild | src/dom/node.js:89-94 | a null old child throws and changes nothing unless the list is empty; otherwise the old child's slot is overwritten (nothing changes when it is absent), the length is kept, `newChild.parent` is not set, and `updateChildren` is always enqueued |
| SrcDom.Node.RemoveChild | src/dom/node.js:117-127 | a null node throws and changes nothing unless the list is empty; otherwise the first copy of a present node is removed, its binding is flagged removed and one `updateChildren` is enqueued, an absent node changes nothing, and the removed node keeps its `parent` |
| SrcDom.Node.SetAttribute | src/dom/element.js:99-101 | the attribute reads back, `hasAttribute` holds exactly when the value is not undefined, the `id` property follows the 'id' attribute, the others are unchanged, and one `setProp` is enqueued |
| SrcDom.Node.RemoveAttribute | src/dom/element.js:107-109 | the attribute is gone (so `id` reads undefined after removing 'id'), the others are unchanged, and nothing is enqueued |
| SrcDom.Node.SetData | dom/src/dom/text.js:11-13 | `data` reads back as `String(val)`, and one `setProp('text', …)` is enqueued |
| SrcDom.Node.TextContent | src/dom/element.js:36-38 | reading `textContent` throws exactly when there is no text child |
| SrcDom.Node.SetTextContent | src/dom/element.js:40-47 | afterwards `textContent` reads `String(val)`; an existing first text child is reused and rewritten once; otherwise a new text node is created, appended and written twice (`create`, `setProp`, `updateChildren`, `setProp`) |
| SrcDom.Node.RewriteText | src/dom/element.js:46 | rewriting the first text child makes `textContent` read the new text |
| SrcDom.Node.AddText | src/dom/element.js:42-46 | with no text child, exactly the four commands of a new text node are enqueued, and `textContent` reads the new text |
| SrcDom.Node.Style | src/dom/element.js:115-122 | the style object is created on first read, tied to this node's binding, and the same object is returned on every later read |
| SrcDom.Node.SetStyleText | src/dom/element.js:111-113 | `set style` writes `String(cssText)` under 'cssText' through the style object; without one it throws |
| SrcDom.Node.OwnerSvgElement | src/dom/svg-element.js:14-22 | the loop over `parentNode` returns exactly `OwnerSvgOf` of the parent chain |
| ElementSearch.LastMatch | src/dom/element.js:65-71 | the first-level loop leaves the LAST child whose id matches, or none |
| ElementSearch.SearchCorrect | src/dom/element.js:57-84 | a hit names a node of the subtree whose id matches; undefined means no node of the subtree has the id; a TypeError happens only when some descendant is not an Element |
| ElementSearch.SearchOrder | src/dom/element.js:57-84 | the node itself is checked first; then, among its direct children, the last match wins even when an earlier child also matches; only after that are subtrees searched |
| ElementSearch.ElementsOnlyComplete | src/dom/element.js:57-84 | in a tree of Elements only, the search finds the id exactly when some node has it, and never throws |
| ElementSearch.GetElementById | src/dom/element.js:57-84 | the two loops, with the recursive call, compute exactly `Search` |
| DomEvents.ApplyAction | dom/src/dom/event.js:28-47 | no event method changes the phase or clears either stop flag |
| DomEvents.StopFlagsSticky | dom/src/dom/event.js:28-44 | no sequence of event calls clears `cancelBubble` or the immediate-stop flag, and `stopImmediatePropagation` alone never sets `cancelBubble` |
| DomEvents.BrokeStays | dom/src/dom/event-target.js:94-96 | once the listener loop has broken, the later turns change nothing |
| DomEvents.CaptureAbortStays | dom/src/dom/event-target.js:52-56 | once a `fireEvent` has thrown, the rest of the capture loop changes nothing |
| DomEvents.BubbleAbortStays | dom/src/dom/event-target.js:62-68 | once a `fireEvent` has thrown, the rest of the bubble loop changes nothing |
| DomEvents.CaptureNoAbort | dom/src/dom/event-target.js:52-56 | a capture loop over nodes that all have listener tables never throws |
| DomEvents.TableLessTargetThrowsAfterCapture | dom/src/dom/event-target.js:42-71 | a target without a listener table (a dom/src/dom text node) lets every ancestor run its capture listeners and then throws at the target, so nothing bubbles |
| DomEvents.QuietFire | dom/src/dom/event-target.js:80-97 | when no listener touches the event, every listener of the snapshot runs in order and the flags stay clean |
| DomEvents.QuietFireAt | dom/src/dom/event-target.js:74-99 | a `fireEvent` whose listeners leave the event alone runs the whole list and never reports prevention |
| DomEvents.QuietCapture | dom/src/dom/event-target.js:52-56 | with quiet listeners the capture loop makes exactly the calls of the ancestors' lists, from the root down |
| DomEvents.QuietBubble | dom/src/dom/event-target.js:62-68 | with quiet listeners the bubble loop makes exactly the calls of the ancestors' lists, from the parent up |
| DomEvents.QuietDispatchOrder | dom/src/dom/event-target.js:42-71 | when no listener touches the event, every listener on the path runs, in order: the ancestors from the root down (capture), the target, then the ancestors from the parent up (bubble); a throwing listener stops nothing, and the result is true |
| DomEvents.AncestorListenerRunsTwice | dom/src/dom/event-target.js:52-68 | a listener on the parent runs twice, once in the capture phase and once in the bubble phase |
| DomEvents.FirePrefixAccounted | dom/src/dom/event-target.js:80-98 | the loop only appends calls, and its result reports prevention exactly when some call it made left `defaultPrevented === true` |
| DomEvents.FireAtAccounted | dom/src/dom/event-target.js:74-99 | `fireEvent` only appends calls and reports prevention only when one of them left it |
| DomEvents.CaptureAccounted | dom/src/dom/event-target.js:52-56 | the capture loop only appends calls, and it reports prevention only when one of its calls left it |
| DomEvents.BubbleAccounted | dom/src/dom/event-target.js:62-68 | the bubble loop only appends calls, and it reports prevention only when one of its calls left it |
| DomEvents.DispatchPreventedIffReported | dom/src/dom/event-target.js:42-71 | `dispatchEvent` returns false exactly when some listener call left `defaultPrevented === true` behind it, even if a later listener set it back |
| DomEvents.FirePrefixPhase | dom/src/dom/event-target.js:80-97 | every call of one `fireEvent` runs in the phase it was given |
| DomEvents.FireAtPhase | dom/src/dom/event-target.js:74-99 | `fireEvent` appends only calls in its own phase |
| DomEvents.CapturePhase | dom/src/dom/event-target.js:52-56 | every call of the capture loop runs in the capture phase |
| DomEvents.BubblePhase | dom/src/dom/event-target.js:62-68 | every call of the bubble loop runs in the bubble phase |
| DomEvents.CancelBubbleReadOnce | dom/src/dom/event-target.js:58-68 | `cancelBubble` is read once, after the target: if it is set by then, no call runs in the bubble phase; otherwise every later call runs in the bubble phase, whatever the bubble listeners do |
| DomEvents.ReturnValueResetStillReported | dom/src/dom/event.js:42-47 | calling `preventDefault` and then setting `returnValue = false` leaves `defaultPrevented` false, yet `dispatchEvent` still reports the event as prevented |
| DomEvents.ImmediateStopIsSticky | dom/src/dom/event-target.js:94-96 | after `stopImmediatePropagation` in an ancestor's first listener, every later node runs only its first listener, because the flag is never cleared |
| DomEvents.FirstListenerBreaks | dom/src/dom/event-target.js:94-96 | a list whose first listener stops immediate propagation makes exactly that one call |
| DomPackage.FirstTextIndex | dom/src/dom.js:355-366 | the position of the first child with `nodeType` 3, or -1 when there is none |
| DomPackage.Event.constructor | dom/src/dom/event.js:4-18 | a new event has nothing stopped or prevented, no target, no data, and is not trusted |
| DomPackage.Event.SetCancelBubble | dom/src/dom/event.js:28-32 | assigning `cancelBubble` can set it but never clear it; only a truthy value counts |
| DomPackage.Event.StopPropagation | dom/src/dom/event.js:34-37 | `stopPropagation` sets `cancelBubble` |
| DomPackage.Event.StopImmediatePropagation | dom/src/dom/event.js:39-41 | `stopImmediatePropagation` sets the immediate flag and leaves `cancelBubble` alone |
| DomPackage.Event.PreventDefault | dom/src/dom/event.js:42-44 | `preventDefault` sets `defaultPrevented` to true |
| DomPackage.Event.SetReturnValue | dom/src/dom/event.js:45-50 | `returnValue` reads back what was written, which goes straight into `defaultPrevented` |
| DomPackage.Event.Perform | dom/src/dom/event.js:28-47 | one event call changes the flags as `ApplyAction` says, and nothing else |
| DomPackage.Event.RunScript | dom/src/dom/event.js:28-47 | a listener's calls change the flags as `ApplyActions` says, and nothing else |
| DomPackage.Node.Element | dom/src/dom/element.js:15-24 | a new element with an empty listener table and a fresh, registered binding; `nodeType` falls back to 1; a truthy `reset` enqueues `clear` before `create` (in dom.js, after emptying the queue) |
| DomPackage.Node.Text | dom/src/dom/text.js:5-9 | a new text node whose `text` prop is `String(data)`; `create` and then `setProp` are enqueued; it has no listener table, and only the dom/src/dom one can dispatch |
| DomPackage.Node.Fragment | dom/src/dom/node.js:10-19 | a document fragment is a bare node named '#fragment' with a registered binding; nothing is enqueued |
| DomPackage.Node.PackageDocument | dom/src/dom/document.js:10-18 | the dom/src/dom document passes 9 as `reset`, so it always enqueues `clear` then `create`, and its `nodeType` falls back to 1; it is its own owner node |
| DomPackage.Node.MonolithDocument | dom/src/dom.js:518-522 | the dom.js document sets the root tag before drawing its id; the queue is emptied and then holds `clear` and `create`; its `nodeType` is 9 |
| DomPackage.Node.HasChildNodes | dom/src/dom/node.js:53-55 | `hasChildNodes` agrees with `firstChild` being non-null |
| DomPackage.Node.ChildIndex | dom/src/dom.js:891-897 | `getChildIndex` is the first index with the same binding id; a null argument throws unless the list is empty, where the result is -1 |
| DomPackage.Node.AppendChild | dom/src/dom.js:300-314 | the node's `parent` is set, the node is moved to the end, and one `updateChildren` is enqueued; the node is then the `lastChild` |
| DomPackage.Node.InsertBefore | dom/src/dom.js:282-291 | the node is inserted at the reference child's index without removing an earlier copy, or before the last child when the reference is absent; a null reference throws unless the list is empty |
| DomPackage.Node.ReplaceChild | dom/src/dom.js:293-298 | the old child's slot is overwritten (nothing changes when it is absent); the length is kept, `newChild.parent` is not set, and `updateChildren` is always enqueued; a null old child throws unless the list is empty |
| DomPackage.Node.RemoveChild | dom/src/dom.js:316-323 | the first copy of a present node is removed and one `updateChildren` is enqueued; an absent node changes nothing; no `parent` is cleared; a null node throws unless the list is empty |
| DomPackage.Node.SetAttribute | dom/src/dom.js:418-420 | the attribute reads back, `hasAttribute` holds exactly when the value is not undefined, the `id` property follows the 'id' attribute, the others are unchanged, and one `setProp` is enqueued |
| DomPackage.Node.RemoveAttribute | dom/src/dom.js:426-428 | throws exactly in dom/src/dom.js, whose `createBinding` object has no `removeProp`, and then the binding is unchanged; in dom/src/dom (element.js:107-109) the attribute is gone (so `id` reads undefined after removing 'id'); the other attributes are unchanged either way, and nothing is enqueued |
| DomPackage.Node.SetData | dom/src/dom.js:506-508 | `data` reads back as `String(val)`, and one `setProp('text', …)` is enqueued |
| DomPackage.Node.TextContent | dom/src/dom.js:355-357 | reading `textContent` throws exactly when there is no text child |
| DomPackage.Node.SetTextContent | dom/src/dom/element.js:40-47 | an existing first text child is reused and rewritten once; with none, dom/src/dom throws (its `Text` is not in scope) and nothing changes, while dom/src/dom.js (lines 359-366) appends a new text node and writes it twice; whenever it does not throw, `textContent` then reads `String(val)` |
| DomPackage.Node.RewriteText | dom/src/dom.js:365 | rewriting the first text child makes `textContent` read the new text |
| DomPackage.Node.AddText | dom/src/dom/element.js:42-45 | `new Text(val)` throws in dom/src/dom, leaving node, bridge and registry untouched; in dom/src/dom.js (lines 361-365) exactly the four commands of a new text node are enqueued and `textContent` reads the new text |
| DomPackage.Node.Style | dom/src/dom.js:434-441 | dom.js creates the style object on first read, tied to the binding registered under the node's id, and reuses it afterwards; in dom/src/dom the factory's body is commented out, so every read gives undefined |
| DomPackage.Node.SetStyleText | dom/src/dom.js:430-432 | `set style` writes `String(cssText)` under 'cssText' through the style object; without one it throws |
| DomPackage.Node.AddEventListener | dom/src/dom/event-target.js:14-23 | one more record at the end of the type's list (duplicates are kept, options ignored); a node without a listener table throws |
| DomPackage.Node.RemoveEventListener | dom/src/dom/event-target.js:25-36 | the result is true exactly when the function is in the type's list; then its first record is removed, so its count drops by one; otherwise nothing changes |
| DomPackage.Node.DispatchEvent | dom/src/dom/event-target.js:42-71 | the target becomes this node, and the listeners run exactly as `Dispatch` says over the parent chain; the result is `!defaultPrevented` as reported; a node that cannot dispatch throws |
| DomPackage.Node.BubblePath | dom/src/dom/event-target.js:47-50 | the `parentNode` walk collects exactly the parent chain |
| DomPackage.Node.CreateElement | dom/src/dom/document.js:20-22 | `createElement` makes a new element on the same bridge, with one `create` enqueued |
| DomPackage.Node.CreateTextNode | dom/src/dom/document.js:28-30 | `createTextNode` makes a new text node whose `data` is `String(d)` |
| DomPackage.Node.CreateDocumentFragment | dom/src/dom/document.js:24-26 | `createDocumentFragment` makes an empty fragment |
| DomPackage.Node.CreateEvent | dom/src/dom/document.js:32-34 | `createEvent` makes an untrusted event of type '' with nothing stopped |
| DomPackage.FireEvent | dom/src/dom/event-target.js:74-99 | `fireEvent` throws on a node without a listener table; otherwise it runs the snapshot of the list exactly as `FirePrefix` says and reports prevention as `FirePrefix` accounts it |
| DomPackage.RunCapture | dom/src/dom/event-target.js:52-56 | the capture loop computes exactly `Capture` |
| DomPackage.RunPath | dom/src/dom/event-target.js:51-70 | on the built path, the capture loop, the target and the bubble loop compute exactly `Dispatch`, and the result is the reported `defaultPrevented` unless a missing listener table threw |
| DomPackage.FireOnPath | dom/src/dom/event-target.js:53-55 | one `fireEvent` on a path node is exactly `FireAt` on the path's listener tables |
| DomPackage.TargetThenBubble | dom/src/dom/event-target.js:58-68 | the target call, then the bubble loop unless `cancelBubble` is already set |
| DomPackage.RunBubble | dom/src/dom/event-target.js:62-68 | the bubble loop computes exactly `Bubble` |
| DomPackage.CreateDom | dom/src/dom.js:727-732 | `createDOM` resets the ids and bindings and makes a document whose id is 1 (2 when the root tag is 1); the queue then holds only its `clear` and `create` |
| NativeEvents.GetListenerFlags | dom/src/index.js:632-644 | for an object, a truthy `passive` or `once` gives 0; otherwise a truthy `capture` gives 2 and its absence gives 1; any other value gives 2 when truthy and 1 when not |
| NativeEvents.RemovedAfterFiring | dom/src/index.js:673-675 | the "once" check `flags & (8 !== 0)` looks at the low bit only |
| NativeEvents.RemovalByOptions | dom/src/index.js:632-675 | exactly the default registrations (flags 1) are removed after they fire; a `once` registration is never removed; a falsy `options` is always removed |
| NativeEvents.IndexOf | dom/src/index.js:674 | `indexOf` is -1 exactly when the record is absent, and otherwise its first position |
| NativeEvents.SpliceAtIndexOf | dom/src/index.js:674 | `list.splice(list.indexOf(item), 1)` takes out exactly one copy of a listed item and keeps one element fewer; for an item not in the list, `indexOf` gives -1 and the last element goes instead |
| NativeEvents.KeptMembers | dom/src/index.js:673-675 | the survivors are exactly the records without the low bit |
| NativeEvents.ApplyNative | dom/src/index.js:609-623 | `preventDefault` sets `defaultPrevented`, `returnValue` writes straight into it, `cancelBubble` is a plain field, and the immediate flag is never cleared |
| NativeEvents.NFireAt | dom/src/index.js:646-684 | `fireEvent` changes only the list of the node it fires on |
| NativeEvents.NCapture | dom/src/index.js:471-482 | the first loop keeps one listener table per path node |
| NativeEvents.NBubble | dom/src/index.js:483-487 | the second loop keeps one listener table per path node |
| NativeEvents.NFirePrefixAccounted | dom/src/index.js:652-683 | the local `defaultPrevented` of `fireEvent` is set exactly when one of its listener calls reported `defaultPrevented === true` |
| NativeEvents.NFirePrefixPhase | dom/src/index.js:654-661 | every call of one `fireEvent` is on its node and in its phase |
| NativeEvents.NDispatchPreventedIffReported | dom/src/index.js:472-489 | `dispatchEvent` returns false exactly when some listener call left `defaultPrevented === true` behind it, even if a later listener set it back |
| NativeEvents.NCapturePhase | dom/src/index.js:473-482 | every call of the first loop runs in the capture or the at-target phase |
| NativeEvents.NBubblePhase | dom/src/index.js:484-487 | every call of the second loop runs in the bubble phase |
| NativeEvents.NDispatchCallPhase | dom/src/index.js:472-489 | whatever the listeners do, a call of `dispatchEvent` runs in the bubble phase exactly when it comes after the calls of the first loop: `cancelBubble` never stops the second loop |
| NativeEvents.LiveIsKeptPrefix | dom/src/index.js:654-682 | while the loop has not broken, the live list is the fired records that survive followed by the records not yet fired; each removal takes out exactly the record that just fired |
| NativeEvents.FireLeavesKept | dom/src/index.js:646-684 | a `fireEvent` that runs its whole list leaves exactly the records without the low bit |
| NativeEvents.FireSingle | dom/src/index.js:646-684 | `fireEvent` on a one-record list is one step of the loop |
| NativeEvents.CancelBubbleIgnored | dom/src/index.js:466-490 | `stopPropagation` at the target does not stop the bubble loop, and a capture listener on the parent runs in both loops |
| NativeEvents.BubbleRegistrationRunsOnce | dom/src/index.js:466-490 | a default registration on the parent runs in the first loop and is then removed, so the bubble loop does not run it again |
| NativeDom.SetEntry | dom/src/index.js:205-210 | `props.set` makes the key read back the value and leaves other keys alone; a present key keeps its place, and a new key goes at the end; keys stay distinct |
| NativeDom.DeleteEntry | dom/src/index.js:211-213 | `props.delete` makes the key read back undefined and leaves other keys alone |
| NativeDom.MapEntriesInInsertionOrder | dom/src/index.js:205-219 | after any sequence of `props.set` and `props.delete` calls, the entries hold no key twice, exactly the keys set since their last delete, each with its last value, in the order the keys entered |
| NativeDom.DeleteEntryAt | dom/src/index.js:211-213 | `props.delete` of a present key takes out its one entry and keeps the others in order |
| NativeDom.SecondSetIsNoOp | dom/src/index.js:205-210 | a value just set reads back `===`, so setting it again enqueues nothing |
| NativeDom.CallEffect | dom/src/index.js:126-143 | only `setProp` reaches the host; a `setProp` for an unknown binding throws |
| NativeDom.NBridge.constructor | dom/src/index.js:123-125 | a new bridge has an empty queue, counter 0 and no bindings, has not started rendering and has no host calls |
| NativeDom.NBridge.Enqueue | dom/src/index.js:144-149 | `enqueue` appends the command and does nothing else |
| NativeDom.NBridge.Step | dom/src/index.js:166-176 | a poll does nothing before rendering starts, on an empty queue, or after a throw; otherwise it shifts the front command and records its host calls, or halts when the command throws |
| NativeDom.NBinding.constructor | dom/src/index.js:178-232 | the binding id is the counter plus one, the counter follows it, and the binding is registered under it; nothing is enqueued |
| NativeDom.NBinding.GetAllProps | dom/src/index.js:217-219 | `getAllProps` returns the props map's entries: every entry reads back through `getProp`, and, for the calls the map has received, no key appears twice, the keys are exactly those set and not deleted since, and they are ordered by when they entered |
| NativeDom.NBinding.Create | dom/src/index.js:188-195 | `create` appends exactly one `create` command (a `Map` has no `Object.entries`) |
| NativeDom.NBinding.Destroy | dom/src/index.js:196-198 | `destroy` appends one `destroy` command |
| NativeDom.NBinding.Append | dom/src/index.js:199-201 | `append` appends one `append` command |
| NativeDom.NBinding.InsertBefore | dom/src/index.js:202-204 | `insertBefore` appends one `insertBefore` command |
| NativeDom.NBinding.SetProp | dom/src/index.js:205-210 | a value `===` the cached one changes nothing; otherwise it is cached (reads back) and one `setProp` is enqueued; other keys are untouched; the entries stay those of a `Map` that received the recorded calls |
| NativeDom.NBinding.RemoveProp | src/native-dom/bridge.js:93-95 | `removeProp` deletes the key without enqueuing; other keys are untouched; the entries stay those of a `Map` that received the recorded calls |
| NativeDom.NNode.Element | dom/src/index.js:313-320 | a new element has a registered binding that points back to it, and nothing is enqueued |
| NativeDom.NNode.Text | dom/src/index.js:525-529 | dom/src/index.js enqueues one `setProp('data', String(value))`; src/native-dom/index.js only keeps the value |
| NativeDom.NNode.SetData | dom/src/index.js:535-538 | `data` reads back as `String(val)`; a `setProp` is enqueued only when the text changed |
| NativeDom.NNode.Mount | dom/src/index.js:497-503 | the `ref` callback marks rendering started and enqueues the binding's `create` |
| NativeDom.NNode.AppendChild | dom/src/index.js:303-306 | `appendChild` sets `parent` and pushes the node; there is no de-duplication and no command |
| NativeDom.NNode.RemoveChild | dom/src/index.js:308-310 | `removeChild` KEEPS exactly the children whose id equals the node's and drops all others; a present node stays |
| NativeDom.NNode.TextContent | dom/src/index.js:347-349 | reading `textContent` of a dom/src/index.js node throws exactly when there is no text child (the src/native-dom/index.js classes have no such getter) |
| NativeDom.NNode.SetTextContent | dom/src/index.js:334-345 | an element not named 'Text' throws; otherwise `textContent` reads `String(val)`, with a `setProp` only when the text changed or a new text node sent it |
| NativeDom.NNode.AddText | dom/src/index.js:339-344 | with no text child, one text node is pushed and exactly one `setProp` is enqueued |
| NativeDom.NNode.SetAttribute | dom/src/index.js:417-419 | throws for src/native-dom/index.js elements; otherwise a binding `setProp` that skips an unchanged value |
| NativeDom.NNode.RemoveAttribute | dom/src/index.js:425-427 | throws for src/native-dom/index.js elements; otherwise the prop is deleted and nothing is enqueued |
| NativeDom.NNode.AddEventListener | dom/src/index.js:429-448 | a record with the option flags is pushed onto the type's list, and a fresh closure is set as the prop, which always enqueues a `setProp`; other generations throw |
| NativeDom.NNode.RemoveEventListener | dom/src/index.js:450-464 | the result is true exactly when a record with the same function and the same flags is in the list; then its first copy is removed; otherwise nothing changes |
| NativeDom.NNode.DispatchEvent | dom/src/index.js:466-490 | the target and `path` are set, and the listeners run exactly as `NDispatch` says, both loops with no `cancelBubble` check; the lists left on the nodes are those `NDispatch` leaves; the result is `!defaultPrevented` as reported |
| NativeDom.NNode.BubblePath | dom/src/index.js:468-471 | the `parentNode` walk collects exactly the parent chain |
| NativeDom.NNode.CreateElement | dom/src/index.js:554-556 | `createElement` makes a new element with the next id, and nothing is enqueued; its `nodeType` reads 1 in dom/src/index.js and undefined in src/native-dom/index.js, whose classes have no `nodeType` getter |
| NativeDom.NNode.CreateTextNode | dom/src/index.js:558-560 | `createTextNode` makes a new text node with the next id and its data; its `nodeType` reads 3 in dom/src/index.js and undefined in src/native-dom/index.js |
| NativeDom.NewDocument | dom/src/index.js:549-552 | a document is an element named '#document' |
| NativeDom.TwoBindings | dom/src/index.js:180 | two bindings made in a row get consecutive ids above all earlier ones, and both are registered |
| NativeDom.SameId | dom/src/index.js:309 | the filter keeps exactly the children whose id is `===` to the given one |
| NativeDom.FirstText | dom/src/index.js:338 | the position of the first child with `nodeType` 3, or -1 when there is none |
| NativeDom.PathDistinct | dom/src/index.js:468-471 | a parent chain that ends never visits a node twice |
| NativeDom.NEvent.constructor | dom/src/index.js:596-608 | a new event has nothing stopped or prevented, no target, an empty path, and is not trusted |
| NativeDom.NEvent.StopPropagation | dom/src/index.js:609-611 | `stopPropagation` sets `cancelBubble` to true |
| NativeDom.NEvent.StopImmediatePropagation | dom/src/index.js:612-614 | `stopImmediatePropagation` sets the immediate flag |
| NativeDom.NEvent.PreventDefault | dom/src/index.js:615-617 | `preventDefault` sets `defaultPrevented` |
| NativeDom.NEvent.SetReturnValue | dom/src/index.js:618-623 | `returnValue` reads back what was written into `defaultPrevented` |
| NativeDom.NEvent.SetCancelBubble | dom/src/index.js:605 | `cancelBubble` is a plain field: false clears it |
| NativeDom.NEvent.Perform | dom/src/index.js:609-623 | one event call changes the flags as `ApplyNative` says, and nothing else |
| NativeDom.NEvent.RunScript | dom/src/index.js:609-623 | a listener's calls change the flags as `ApplyNativeAll` says, and nothing else |
| NativeDom.FireEvent | dom/src/index.js:646-684 | with no list, nothing happens; otherwise the frozen copy runs exactly as `NFirePrefix` says, and the node's list becomes what the loop left |
| NativeDom.FireListener | dom/src/index.js:656-682 | one turn of the loop is exactly `NFireStep` |
| NativeDom.FireFrozen | dom/src/index.js:654-682 | the loop over the frozen copy ends exactly where `NFirePrefix` over the whole copy ends, whether it ran out or broke on an immediate stop, and the node keeps the live list that run left |
| NativeDom.DropFired | dom/src/index.js:673-675 | a record with the low flag bit set is spliced out of the live list at its `indexOf`; any other record leaves the list as it was |
| NativeDom.RunCaptureLoop | dom/src/index.js:473-483 | the first loop computes exactly `NCapture` over the whole path |
| NativeDom.RunBubbleLoop | dom/src/index.js:484-488 | the second loop computes exactly `NBubble` |
| NativeDom.FireOnPath | dom/src/index.js:474-482 | one `fireEvent` on a path node is exactly `NFireAt` |
| UndomUtil.LastMatch | src/dom/util.js:19-23 | the highest matching index, or -1; nothing after it matches |
| UndomUtil.FindWhere | src/dom/util.js:19-23 | returns the index of the last match, or the element itself; it is undefined when the search ran off the front |
| UndomUtil.FindIndex | src/dom/util.js:20-21 | the `while (i--)` loop stops at exactly `LastMatch` |
| UndomUtil.Spliced | src/dom/util.js:15 | a truthy `add` goes in just before position i; otherwise position i is removed |
| UndomUtil.Splice | src/dom/util.js:13-17 | a missing array or no match gives -1 and leaves the array alone; otherwise the index of the last match is returned and the array is spliced there |
| UndomUtil.SpliceInsertThenRemove | src/dom/util.js:13-17 | inserting a value not yet present and then splicing it out by value gives the array back |
| UndomUtil.ToLower | src/dom/util.js:9-11 | the result has the length of `String(str)`, contains no upper-case ASCII letter, and changes only upper-case letters |
| UndomUtil.ToLowerIdempotent | src/dom/util.js:9-11 | lower-casing twice is lower-casing once |
| UndomUtil.FilterIgnoresCase | src/dom/util.js:25-27 | the attribute filter ignores case, and the two names it compares can swap roles |
| UndomUtil.Assign | src/dom/util.js:5-7 | `assign` overwrites every key of `props` onto the object and leaves the others |

## Left out

- Host effects: `UIManager.createView`, `updateView` and `manageChildren`, and `setNativeProps`, are recorded as host-call values and not performed. The `clear` command's list of child indices is not modelled.
- `processProps`/`normalizeStyle` (src/dom/bridge.js:261-308 and dom/src/dom.js:646-693) rewrite props for the native view config. The view configs come from React Native and are not part of this model; a `setProp` records the binding's whole props.
- `_updateTextNode` of dom/src/index.js reads the parent's native ref (`parent.ref._children`). Native refs are not modelled: a Text binding with a node and a parent records one text update.
- The `TYPES` tables of dom/src/index.js and src/native-dom/index.js map names to host components. They are a constructor parameter of `NBridge`, not transcribed.
- Timers are not modelled: `setTimeout` and the promise chain that schedule `process` become explicit `Step` calls, and the listener errors rethrown by `setTimeout(thrower)` are dropped.
- The `script` parameter stands for listener code: each listener is a number whose event calls, `false` return and throw come from `script`. Listeners that change the DOM while an event is dispatched are not modelled.
- `Binding.dispatchEvent` of dom/src/index.js and the `handleEvent` of its bridge (`Object.assign` of extra fields onto the event) are left out. The timestamp of every `Event` is also left out, as it is clock data.
- The `style` setter, the `value` getter, `className`, `render` and the element `Proxy` of dom/src/index.js are left out. They build React elements and forward unknown keys, which concerns rendering, not this DOM.
- The write `event[IS_TRUSTED] = true` made before a binding dispatches a native event (src/dom/binding.js:67, dom/src/dom.js:602, dom/src/index.js:226) is taken to be ignored, as a non-strict assignment to a non-writable property is. This code is module and class code, which is strict, and there the assignment throws a `TypeError` before `dispatchEvent` runs. The model follows the non-strict reading: the event is dispatched untrusted. Under the strict reading, `Commands.BindingEvent`, `Bindings.Deliveries`, `Bindings.TopFocusDeliversChangeThenFocus` and the native-event dispatch of dom/src/index.js would end in that `TypeError` instead.
- Cyclic parent chains are left out. `appendChild` does not check for cycles (`a.appendChild(a)` makes `a` its own parent), and on such a chain the `parentNode` walks loop forever: src/dom/svg-element.js:14-22, dom/src/dom/event-target.js:47-50 and dom/src/index.js:469-471. The requires of `SrcDom.ParentChain`, `DomPackage.PathOf` and `NativeDom.NPathOf` exclude such chains, so the model says nothing about them.
- `getElementById` of dom/src/index.js is left out; the src/dom and dom/src/dom versions are modelled by `ElementSearch`.
- `_textNode` (src/dom/element.js:26-34) has no callers in the core, so it is left out.
- `createElementNS`, `cloneNode`, `querySelector` and `querySelectorAll` are left out: they are stubs or unreachable.
- Numbers are integers: fractions, NaN and Infinity are not modelled, so `===` is reflexive. `String(fn)` is a fixed placeholder, because the source text of a function is not modelled.
- UndomUtil.ToLower: lower-cases ASCII letters only; `toLowerCase` also maps non-ASCII letters.
- src/dom/text.js, src/dom/event-target.js, src/dom/event.js, dom/src/dom/binding.js, dom/src/dom/bridge.js and dom/src/dom/utils.js are not part of this model. Their behaviour is taken from the matching dom/src/dom and src/dom files, which the other files import with the same interface.
- src/native-dom/shared.js and src/native-dom/element.js are not part of this model.
- NativeDom.CallEffect: for `setProp`, the host calls are stated through `NativeDom.NBridge.Step` and the function body; its own contract names only the no-op and unknown-binding cases.
- NativeEvents.NCapture: its contract states only that the tables keep their number; what the loop does is stated by `NativeDom.RunCaptureLoop`, `NativeEvents.NCapturePhase`, `NativeEvents.NCaptureAccounted` and `NativeEvents.NDispatchPreventedIffReported`.
- NativeEvents.NBubble: its contract states only that the tables keep their number; what the loop does is stated by `NativeEvents.NBubblePhase`, `NativeEvents.NBubbleAccounted` and `NativeEvents.NDispatchCallPhase`.
- ChildrenDiff.RotationReportsEveryChild: the documented behaviour for moving the first of three children to the end is a single move. The code reports three moves, and the model follows the code.
