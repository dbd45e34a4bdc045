/** The nodes of src/dom: `Node` (src/dom/node.js), `Element`
    (src/dom/element.js), `SVGElement` (src/dom/svg-element.js) and `Text`.
    A node owns a binding and a `children` array that its tree operations
    edit in place; every edit submits the old and the new children (as
    binding ids) to the bridge.  Children are told apart by binding id. */
module SrcDom {
  import opened JsValues
  import opened Commands
  import opened Registry
  import opened Bindings
  import opened ChildIdentity
  import opened ChildOps
  import opened EventRouting

  const XhtmlNs := "http://www.w3.org/1999/xhtml"
  const SvgNs := "http://www.w3.org/2000/svg"

  function IdOf(n: Node): int {
    n.binding.id
  }

  /** The ids of a children array: what `getChildIndex` compares. */
  function Ids(s: seq<Node>): (r: seq<int>)
    ensures |r| == |s| && forall i :: 0 <= i < |s| ==> r[i] == s[i].binding.id
  {
    Keys(s, IdOf)
  }

  /** The position of the first child with `nodeType` 3, -1 if none
      (`children.find(x => x.nodeType === 3)`). */
  function FirstTextIndex(s: seq<Node>): (r: int)
    ensures -1 <= r < |s|
    ensures r >= 0 ==> s[r].nodeType == TextNode && forall j :: 0 <= j < r ==> s[j].nodeType != TextNode
    ensures r == -1 ==> forall j :: 0 <= j < |s| ==> s[j].nodeType != TextNode
  {
    if s == [] then -1
    else if s[0].nodeType == TextNode then 0
    else var k := FirstTextIndex(s[1..]); if k == -1 then -1 else k + 1
  }

  /** `parentNode` links from a node up to a node with no parent. */
  ghost predicate ParentChain(n: Node, chain: seq<Node>)
    reads chain
  {
    && |chain| > 0 && chain[0] == n
    && (forall i :: 0 <= i < |chain| - 1 ==> chain[i].parent == chain[i + 1])
    && chain[|chain| - 1].parent == null
  }

  /** How many nodes from `chain[i]` on are SVG elements without a break. */
  function SvgRun(chain: seq<Node>, i: nat): (k: nat)
    requires i <= |chain|
    ensures i + k <= |chain|
    ensures forall j :: i <= j < i + k ==> chain[j].isSvg
    ensures i + k < |chain| ==> !chain[i + k].isSvg
    decreases |chain| - i
  {
    if i == |chain| || !chain[i].isSvg then 0 else 1 + SvgRun(chain, i + 1)
  }

  /** `ownerSVGElement` read off the parent chain: the farthest ancestor of
      the unbroken run of SVG elements above the node, null when the parent
      is absent or not an SVG element.  It is never the node itself. */
  function OwnerSvgOf(chain: seq<Node>): (r: Node?)
    requires |chain| > 0
    ensures r == null <==> |chain| == 1 || !chain[1].isSvg
    ensures r != null ==>
      var k := SvgRun(chain, 1);
      && 1 <= k && r == chain[k]
      && (forall j :: 1 <= j <= k ==> chain[j].isSvg)
      && (k + 1 < |chain| ==> !chain[k + 1].isSvg)
  {
    var k := SvgRun(chain, 1);
    if k == 0 then null else chain[k]
  }

  class Node {
    const localName: string
    const nodeType: int
    const binding: Binding
    /** `[NS]`: the XHTML namespace for elements, the SVG one for SVG
        elements, none for text. */
    const ns: string
    /** Constructed as an `SVGElement` (what `instanceof SVGElement` tests). */
    const isSvg: bool
    var children: seq<Node>
    var parent: Node?
    /** `[STYLE]`, created on first read of `style`. */
    var style: StyleBinding?

    /** `new Element(type)`: the Node constructor makes and registers a
        binding, then the Element constructor enqueues one `create`. */
    constructor Element(bridge: Bridge, localName: string)
      requires bridge.flavour == ClassBased
      modifies bridge, bridge.registry
      ensures this.localName == localName && nodeType == ElementNode && ns == XhtmlNs && !isSvg
      ensures children == [] && parent == null && style == null
      ensures fresh(binding) && binding.bridge == bridge && binding.localName == localName
      ensures binding.props == map[] && !binding.isRemoved
      ensures binding.id == NextTag(old(bridge.registry.currentBindingId), bridge.registry.root)
      ensures bridge.registry.currentBindingId == old(bridge.registry.currentBindingId) + 1
      ensures bridge.registry.bindings == old(bridge.registry.bindings)[binding.id := binding]
      ensures bridge.queue == old(bridge.queue) + [CreateCmd(binding.id, localName)]
      ensures bridge.hostLog == old(bridge.hostLog)
      ensures old(bridge.Valid()) ==> bridge.Valid()
    {
      var b := new Binding(bridge, localName);
      bridge.registry.AddBinding(b.id, b);
      this.localName := localName;
      nodeType := ElementNode;
      binding := b;
      ns := XhtmlNs;
      isSvg := false;
      children := [];
      parent := null;
      style := null;
      new;
      b.Create();
    }

    /** `new SVGElement(localName)`: an Element in the SVG namespace. */
    constructor SVGElement(bridge: Bridge, localName: string)
      requires bridge.flavour == ClassBased
      modifies bridge, bridge.registry
      ensures this.localName == localName && nodeType == ElementNode && ns == SvgNs && isSvg
      ensures children == [] && parent == null && style == null
      ensures fresh(binding) && binding.bridge == bridge && binding.localName == localName
      ensures binding.props == map[] && !binding.isRemoved
      ensures binding.id == NextTag(old(bridge.registry.currentBindingId), bridge.registry.root)
      ensures bridge.registry.currentBindingId == old(bridge.registry.currentBindingId) + 1
      ensures bridge.registry.bindings == old(bridge.registry.bindings)[binding.id := binding]
      ensures bridge.queue == old(bridge.queue) + [CreateCmd(binding.id, localName)]
      ensures bridge.hostLog == old(bridge.hostLog)
      ensures old(bridge.Valid()) ==> bridge.Valid()
    {
      var b := new Binding(bridge, localName);
      bridge.registry.AddBinding(b.id, b);
      this.localName := localName;
      nodeType := ElementNode;
      binding := b;
      ns := SvgNs;
      isSvg := true;
      children := [];
      parent := null;
      style := null;
      new;
      b.Create();
    }

    /** `new Text(data)`: `create`, then the `text` prop as `String(data)`. */
    constructor Text(bridge: Bridge, data: Value)
      requires bridge.flavour == ClassBased
      modifies bridge, bridge.registry
      ensures localName == "#text" && nodeType == TextNode && ns == "" && !isSvg
      ensures children == [] && parent == null && style == null
      ensures fresh(binding) && binding.bridge == bridge && binding.localName == "#text"
      ensures binding.props == map["text" := Str(ToJsString(data))] && !binding.isRemoved
      ensures binding.id == NextTag(old(bridge.registry.currentBindingId), bridge.registry.root)
      ensures bridge.registry.currentBindingId == old(bridge.registry.currentBindingId) + 1
      ensures bridge.registry.bindings == old(bridge.registry.bindings)[binding.id := binding]
      ensures bridge.queue == old(bridge.queue)
        + [CreateCmd(binding.id, "#text"), SetPropCmd(binding.id, "text", Str(ToJsString(data)))]
      ensures bridge.hostLog == old(bridge.hostLog)
      ensures old(bridge.Valid()) ==> bridge.Valid()
    {
      var b := new Binding(bridge, "#text");
      bridge.registry.AddBinding(b.id, b);
      localName := "#text";
      nodeType := TextNode;
      binding := b;
      ns := "";
      isSvg := false;
      children := [];
      parent := null;
      style := null;
      new;
      b.Create();
      b.SetProp("text", Str(ToJsString(data)));
    }

    function ChildIds(): seq<int>
      reads this
    {
      Ids(children)
    }

    /** `firstChild`. */
    function FirstChild(): (r: Node?)
      reads this
      ensures r == null <==> children == []
      ensures r != null ==> r == children[0]
    {
      if |children| > 0 then children[0] else null
    }

    /** `lastChild`. */
    function LastChild(): (r: Node?)
      reads this
      ensures r == null <==> children == []
      ensures r != null ==> r == children[|children| - 1]
    {
      if |children| > 0 then children[|children| - 1] else null
    }

    /** `hasChildNodes()`. */
    predicate HasChildNodes()
      reads this
      ensures HasChildNodes() <==> FirstChild() != null
    {
      |children| > 0
    }

    /** `appendChild(node)`: `parent` is set first; a node whose binding is
        flagged removed then throws (its `rebuildTree` is not defined), and
        otherwise a copy with the same id is spliced out and the node
        pushed, with one `updateChildren`. */
    method AppendChild(node: Node) returns (threw: bool)
      modifies this, node, binding.bridge
      ensures node.parent == this
      ensures threw == node.binding.isRemoved
      ensures threw ==> children == old(children) && unchanged(binding.bridge)
      ensures !threw ==> LastChild() == node && FirstChild() != null
      ensures !threw ==>
        && children == Appended(old(children), GetChildIndex(Ids(old(children)), IdOf(node)), node)
        && binding.bridge.Appended(UpdateChildrenCmd(binding.id, Ids(old(children)), Ids(children)))
      ensures style == old(style) && (node != this ==> parent == old(parent))
      ensures node != this ==> node.children == old(node.children) && node.style == old(node.style)
      ensures old(binding.bridge.Valid()) ==> binding.bridge.Valid()
    {
      var prev := Ids(children);
      node.parent := this;
      var existing := GetChildIndex(Ids(children), IdOf(node));
      if node.binding.isRemoved {
        return true;
      }
      children := Appended(children, existing, node);
      binding.UpdateChildren(prev, Ids(children));
      threw := false;
    }

    /** `insertBefore(node, refNode)`: nothing for a null node, exactly
        `appendChild` for a null reference, otherwise `InsertBeforeRef`. */
    method InsertBefore(node: Node?, refNode: Node?) returns (threw: bool)
      modifies this, node, binding.bridge
      ensures node == null ==> !threw && unchanged(this) && unchanged(binding.bridge)
      ensures node != null && refNode == null ==> node.parent == this && threw == node.binding.isRemoved
      ensures node != null && refNode == null && threw ==> children == old(children) && unchanged(binding.bridge)
      ensures node != null && refNode == null && !threw ==>
        && children == Appended(old(children), GetChildIndex(Ids(old(children)), IdOf(node)), node)
        && binding.bridge.Appended(UpdateChildrenCmd(binding.id, Ids(old(children)), Ids(children)))
      ensures node != null && refNode != null ==> threw == node.binding.isRemoved
      ensures node != null && refNode != null && threw ==> unchanged(this) && unchanged(node) && unchanged(binding.bridge)
      ensures node != null && refNode != null && !threw ==>
        && node.parent == this
        && children == InsertedBeforeDedup(old(children),
             GetChildIndex(Ids(old(children)), IdOf(refNode)),
             GetChildIndex(Ids(old(children)), IdOf(node)), node)
        && binding.bridge.Appended(UpdateChildrenCmd(binding.id, Ids(old(children)), Ids(children)))
      ensures style == old(style) && (node != this ==> parent == old(parent))
      ensures node != null && node != this ==> node.children == old(node.children) && node.style == old(node.style)
      ensures old(binding.bridge.Valid()) ==> binding.bridge.Valid()
    {
      if node == null {
        return false;
      }
      if refNode == null {
        threw := AppendChild(node);
      } else {
        threw := InsertBeforeRef(node, refNode);
      }
    }

    /** `insertBefore` with both arguments given: a node whose binding is
        flagged removed throws before anything changes; otherwise the
        reference index is taken, an existing copy of the node is spliced
        out, and the node goes in at that index of the shortened list. */
    method InsertBeforeRef(node: Node, refNode: Node) returns (threw: bool)
      modifies this, node, binding.bridge
      ensures threw == node.binding.isRemoved
      ensures threw ==> unchanged(this) && unchanged(node) && unchanged(binding.bridge)
      ensures !threw ==>
        && node.parent == this
        && children == InsertedBeforeDedup(old(children),
             GetChildIndex(Ids(old(children)), IdOf(refNode)),
             GetChildIndex(Ids(old(children)), IdOf(node)), node)
        && binding.bridge.Appended(UpdateChildrenCmd(binding.id, Ids(old(children)), Ids(children)))
      ensures style == old(style) && (node != this ==> parent == old(parent))
      ensures node != this ==> node.children == old(node.children) && node.style == old(node.style)
      ensures old(binding.bridge.Valid()) ==> binding.bridge.Valid()
    {
      if node.binding.isRemoved {
        return true;
      }
      var prev := Ids(children);
      var index := GetChildIndex(Ids(children), IdOf(refNode));
      var existing := GetChildIndex(Ids(children), IdOf(node));
      node.parent := this;
      children := InsertedBeforeDedup(children, index, existing, node);
      binding.UpdateChildren(prev, Ids(children));
      threw := false;
    }

    /** `getChildIndex(this, toFind)`: `findIndex(isSameChild, toFind)`
        runs `isSameChild` with `toFind` as `this`, so a null `toFind`
        throws on the first child (None) and gives -1 on an empty list. */
    function ChildIndex(toFind: Node?): (r: Option<int>)
      reads this
      ensures r.None? <==> toFind == null && children != []
      ensures r.Some? ==> -1 <= r.value < |children|
      ensures toFind != null ==> r == Some(GetChildIndex(Ids(children), IdOf(toFind)))
    {
      if toFind != null then Some(GetChildIndex(Ids(children), IdOf(toFind)))
      else if children == [] then Some(-1)
      else None
    }

    /** `replaceChild(newChild, oldChild)`: overwrite the slot of the old
        child (none when it is absent); `newChild.parent` is not set and
        `updateChildren` is always submitted.  A null `oldChild` throws
        before anything changes unless the list is empty. */
    method ReplaceChild(newChild: Node, oldChild: Node?) returns (threw: bool)
      modifies this, binding.bridge
      ensures threw <==> old(ChildIndex(oldChild)).None?
      ensures threw ==> unchanged(this) && unchanged(binding.bridge)
      ensures !threw ==>
        && children == Replaced(old(children), old(ChildIndex(oldChild)).value, newChild)
        && |children| == |old(children)|
        && binding.bridge.Appended(UpdateChildrenCmd(binding.id, Ids(old(children)), Ids(children)))
      ensures parent == old(parent) && style == old(style)
      ensures old(binding.bridge.Valid()) ==> binding.bridge.Valid()
    {
      var prev := Ids(children);
      var index := ChildIndex(oldChild);
      if index.None? {
        return true;
      }
      children := Replaced(children, index.value, newChild);
      binding.UpdateChildren(prev, Ids(children));
      threw := false;
    }

    /** `removeChild(node)`: a present node is spliced out (first copy by
        id), its binding flagged removed and one `updateChildren`
        submitted; its `parent` is left as it was.  An absent node changes
        nothing, and a null node throws unless the list is empty. */
    method RemoveChild(node: Node?) returns (threw: bool)
      modifies this, binding.bridge, if node == null then {} else {node.binding}
      ensures threw <==> old(ChildIndex(node)).None?
      ensures threw ==> unchanged(this) && unchanged(binding.bridge)
      ensures !threw ==>
        var k := old(ChildIndex(node)).value;
        && children == Removed(old(children), k)
        && (k == -1 ==> unchanged(binding.bridge))
        && (k >= 0 ==>
              && node != null && node.binding.isRemoved
              && binding.bridge.Appended(UpdateChildrenCmd(binding.id, Ids(old(children)), Ids(children))))
      ensures node != null ==>
        && node.parent == old(node.parent)
        && node.binding.props == old(node.binding.props)
        && (old(ChildIndex(node)).value == -1 ==> node.binding.isRemoved == old(node.binding.isRemoved))
      ensures parent == old(parent) && style == old(style)
      ensures old(binding.bridge.Valid()) ==> binding.bridge.Valid()
    {
      var prev := Ids(children);
      var index := ChildIndex(node);
      if index.None? {
        return true;
      }
      if index.value > -1 {
        var current := RemoveAt(children, index.value);
        node.binding.isRemoved := true;
        binding.UpdateChildren(prev, Ids(current));
        children := current;
      }
      threw := false;
    }

    /** `getAttribute(key)`. */
    function GetAttribute(key: string): Value
      reads binding
    {
      binding.GetProp(key)
    }

    /** `hasAttribute(key)`: the prop is not undefined. */
    predicate HasAttribute(key: string)
      reads binding
      ensures HasAttribute(key) <==> GetAttribute(key) != Undefined
    {
      binding.GetProp(key) != Undefined
    }

    /** `setAttribute(key, value)`; also the `id` setter with key 'id'. */
    method SetAttribute(key: string, value: Value)
      modifies binding, binding.bridge
      ensures GetAttribute(key) == value
      ensures forall k :: k != key ==> GetAttribute(k) == old(GetAttribute(k))
      ensures HasAttribute(key) <==> value != Undefined
      ensures key == "id" ==> Id() == value
      ensures key != "id" ==> Id() == old(Id())
      ensures binding.bridge.Appended(SetPropCmd(binding.id, key, value))
      ensures binding.isRemoved == old(binding.isRemoved)
      ensures old(binding.bridge.Valid()) ==> binding.bridge.Valid()
    {
      binding.SetProp(key, value);
    }

    /** `removeAttribute(key)`: nothing is enqueued. */
    method RemoveAttribute(key: string)
      modifies binding
      ensures !HasAttribute(key)
      ensures forall k :: k != key ==> GetAttribute(k) == old(GetAttribute(k))
      ensures key == "id" ==> Id() == Undefined
      ensures binding.isRemoved == old(binding.isRemoved)
    {
      var _ := binding.RemoveProp(key);
    }

    /** The `id` property reads the 'id' attribute. */
    function Id(): (r: Value)
      reads binding
      ensures r == GetAttribute("id")
    {
      binding.GetProp("id")
    }

    /** The `data` of a text node: its 'text' prop. */
    function Data(): Value
      reads binding
    {
      binding.GetProp("text")
    }

    /** `set data(val)` of a text node. */
    method SetData(val: Value)
      modifies binding, binding.bridge
      ensures Data() == Str(ToJsString(val))
      ensures binding.props == old(binding.props)["text" := Str(ToJsString(val))]
      ensures binding.bridge.Appended(SetPropCmd(binding.id, "text", Str(ToJsString(val))))
      ensures binding.isRemoved == old(binding.isRemoved)
      ensures old(binding.bridge.Valid()) ==> binding.bridge.Valid()
    {
      binding.SetProp("text", Str(ToJsString(val)));
    }

    /** Every child talks to this node's bridge. */
    ghost predicate SharesBridge()
      reads this, children
    {
      forall c :: c in children ==> c.binding.bridge == binding.bridge
    }

    /** `get textContent`: the `data` of the first text child; with none,
        reading `.data` of undefined throws (`None`). */
    function TextContent(): (r: Option<Value>)
      reads this, set c | c in children :: c.binding
      ensures r.None? <==> FirstTextIndex(children) == -1
    {
      var i := FirstTextIndex(children);
      if i == -1 then None else Some(children[i].Data())
    }

    /** `set textContent(val)`: the first text child is reused; only when
        there is none a new `Text(val)` is appended (which submits its own
        `create` and `setProp`).  Either way the text is then written once
        more, and reading `textContent` gives `String(val)` back. */
    method SetTextContent(val: Value) returns (created: Node?)
      requires binding.bridge.flavour == ClassBased
      requires SharesBridge()
      modifies this, binding.bridge, binding.bridge.registry, set c | c in children :: c.binding
      ensures TextContent() == Some(Str(ToJsString(val)))
      ensures FirstTextIndex(old(children)) >= 0 ==>
        && created == null && children == old(children)
        && binding.bridge.Appended(SetPropCmd(IdOf(children[FirstTextIndex(children)]), "text", Str(ToJsString(val))))
      ensures FirstTextIndex(old(children)) == -1 ==>
        && created != null && fresh(created)
        && children == Appended(old(children), GetChildIndex(Ids(old(children)), IdOf(created)), created)
        && created.localName == "#text" && created.parent == this
        && binding.bridge.queue == old(binding.bridge.queue)
             + [CreateCmd(created.binding.id, "#text"),
                SetPropCmd(created.binding.id, "text", Str(ToJsString(val))),
                UpdateChildrenCmd(binding.id, Ids(old(children)), Ids(children)),
                SetPropCmd(created.binding.id, "text", Str(ToJsString(val)))]
      ensures parent == old(parent) && style == old(style)
      ensures old(binding.bridge.Valid()) ==> binding.bridge.Valid()
    {
      var i := FirstTextIndex(children);
      if i >= 0 {
        RewriteText(i, val);
        created := null;
      } else {
        created := AddText(val);
      }
    }

    /** The text child at `i` is the first one: its `data` is written. */
    method RewriteText(i: nat, val: Value)
      requires i < |children| && FirstTextIndex(children) == i
      requires children[i].binding.bridge == binding.bridge
      modifies children[i].binding, binding.bridge
      ensures TextContent() == Some(Str(ToJsString(val)))
      ensures binding.bridge.Appended(SetPropCmd(IdOf(children[i]), "text", Str(ToJsString(val))))
      ensures old(binding.bridge.Valid()) ==> binding.bridge.Valid()
    {
      var textNode := children[i];
      textNode.SetData(val);
    }

    /** No text child: a new `Text(val)` is appended and written once more. */
    method AddText(val: Value) returns (created: Node)
      requires binding.bridge.flavour == ClassBased
      requires FirstTextIndex(children) == -1
      modifies this, binding.bridge, binding.bridge.registry
      ensures TextContent() == Some(Str(ToJsString(val)))
      ensures fresh(created)
      ensures children == Appended(old(children), GetChildIndex(Ids(old(children)), IdOf(created)), created)
      ensures created.localName == "#text" && created.parent == this
      ensures binding.bridge.queue == old(binding.bridge.queue)
        + [CreateCmd(created.binding.id, "#text"),
           SetPropCmd(created.binding.id, "text", Str(ToJsString(val))),
           UpdateChildrenCmd(binding.id, Ids(old(children)), Ids(children))]
        + [SetPropCmd(created.binding.id, "text", Str(ToJsString(val)))]
      ensures parent == old(parent) && style == old(style)
      ensures old(binding.bridge.Valid()) ==> binding.bridge.Valid()
    {
      created := PushText(val);
      ghost var q := binding.bridge.queue;
      WriteText(created, val);
      assert binding.bridge.queue == q + [SetPropCmd(created.binding.id, "text", Str(ToJsString(val)))];
    }

    /** The second half of `AddText`: the text of the new last child is
        written once more. */
    method WriteText(created: Node, val: Value)
      requires |children| > 0 && children[|children| - 1] == created
      requires FirstTextIndex(children) == |children| - 1
      requires created.binding.bridge == binding.bridge
      modifies created.binding, binding.bridge
      ensures TextContent() == Some(Str(ToJsString(val)))
      ensures binding.bridge.queue == old(binding.bridge.queue) + [SetPropCmd(created.binding.id, "text", Str(ToJsString(val)))]
      ensures old(binding.bridge.Valid()) ==> binding.bridge.Valid()
    {
      created.SetData(val);
    }

    /** The first half of `AddText`: `new Text(val)` is made and appended. */
    method PushText(val: Value) returns (created: Node)
      requires binding.bridge.flavour == ClassBased
      requires FirstTextIndex(children) == -1
      modifies this, binding.bridge, binding.bridge.registry
      ensures fresh(created) && created.localName == "#text" && created.parent == this
      ensures created.binding.bridge == binding.bridge && fresh(created.binding)
      ensures children == Appended(old(children), GetChildIndex(Ids(old(children)), IdOf(created)), created)
      ensures |children| > 0 && children[|children| - 1] == created && FirstTextIndex(children) == |children| - 1
      ensures binding.bridge.queue == old(binding.bridge.queue)
        + [CreateCmd(created.binding.id, "#text"),
           SetPropCmd(created.binding.id, "text", Str(ToJsString(val))),
           UpdateChildrenCmd(binding.id, Ids(old(children)), Ids(children))]
      ensures parent == old(parent) && style == old(style)
      ensures old(binding.bridge.Valid()) ==> binding.bridge.Valid()
    {
      created := new Node.Text(binding.bridge, val);
      var threw := AppendChild(created);
      FirstTextAfterAppendChild(old(children), GetChildIndex(Ids(old(children)), IdOf(created)), created);
    }

    /** The `style` getter: the style object is made on first read, bound
        to the binding registered under this node's id, and the same object
        is returned on every later read. */
    method Style() returns (s: StyleBinding)
      modifies this
      ensures style == s
      ensures old(style) != null ==> s == old(style)
      ensures old(style) == null ==>
        && fresh(s) && s.current == map[]
        && s.target == (match binding.bridge.registry.GetBinding(binding.id) case Some(b) => b case None => null)
      ensures children == old(children) && parent == old(parent)
    {
      if style == null {
        var found := binding.bridge.registry.GetBinding(binding.id);
        var target: Binding? := match found case Some(b) => b case None => null;
        style := new StyleBinding(target);
      }
      s := style;
    }

    /** `set style(cssText)`: writes `String(cssText)` under 'cssText'
        through the style object, which must already exist (otherwise the
        write throws). */
    method SetStyleText(cssText: Value, snapshotRef: nat) returns (threw: bool)
      modifies style, if style != null && style.target != null then {style.target, style.target.bridge} else {}
      ensures style == null ==> threw
      ensures style != null ==>
        && style.current == old(style.current)["cssText" := Str(ToJsString(cssText))]
        && (threw <==> style.target == null)
        && (style.target != null ==>
            style.target.bridge.Appended(SetPropCmd(style.target.id, "style", Obj(snapshotRef, style.current))))
    {
      if style == null {
        return true;
      }
      threw := style.Set("cssText", Str(ToJsString(cssText)), snapshotRef);
    }

    /** `get ownerSVGElement`: walk up while the parent is an SVG element;
        `chain` names the parent links, which the walk follows. */
    method OwnerSvgElement(ghost chain: seq<Node>) returns (root: Node?)
      requires ParentChain(this, chain)
      ensures root == OwnerSvgOf(chain)
    {
      root := null;
      var p := parent;
      ghost var i := 1;
      while p != null && p.isSvg
        invariant 1 <= i <= |chain|
        invariant p == (if i < |chain| then chain[i] else null)
        invariant SvgRun(chain, 1) == i - 1 + SvgRun(chain, i)
        invariant root == (if i == 1 then null else chain[i - 1])
        decreases |chain| - i
      {
        root := p;
        p := p.parent;
        i := i + 1;
      }
    }
  }

  /** After `appendChild` of a text node to a list with no text node, the
      first text node is the appended one, at the end. */
  lemma FirstTextAfterAppendChild(s: seq<Node>, k: int, t: Node)
    requires -1 <= k < |s| && FirstTextIndex(s) == -1 && t.nodeType == TextNode
    ensures var r := Appended(s, k, t); |r| > 0 && r[|r| - 1] == t && FirstTextIndex(r) == |r| - 1
  {
    var kept := if k >= 0 then RemoveAt(s, k) else s;
    forall j | 0 <= j < |kept|
      ensures kept[j].nodeType != TextNode
    {
      if k >= 0 && j >= k {
        assert kept[j] == s[j + 1];
      } else {
        assert kept[j] == s[j];
      }
    }
    FirstTextAfterAppend(kept, t);
  }

  lemma {:induction false} FirstTextAfterAppend(s: seq<Node>, t: Node)
    requires forall j :: 0 <= j < |s| ==> s[j].nodeType != TextNode
    requires t.nodeType == TextNode
    ensures FirstTextIndex(s + [t]) == |s|
  {
    if s != [] {
      FirstTextAfterAppend(s[1..], t);
      assert (s + [t])[1..] == s[1..] + [t];
    }
  }

  /** `getChildIndex` on nodes is `GetChildIndex` on their ids: the first
      child sharing the id, and -1 exactly when none does. */
  lemma ChildIndexById(children: seq<Node>, toFind: Node)
    ensures var k := GetChildIndex(Ids(children), IdOf(toFind));
      && (k == -1 <==> forall i :: 0 <= i < |children| ==> IdOf(children[i]) != IdOf(toFind))
      && (k >= 0 ==>
            && IdOf(children[k]) == IdOf(toFind)
            && forall i :: 0 <= i < k ==> IdOf(children[i]) != IdOf(toFind))
  {
    var ids := Ids(children);
    var k := GetChildIndex(ids, IdOf(toFind));
    if k >= 0 {
      forall i | 0 <= i < k
        ensures IdOf(children[i]) != IdOf(toFind)
      {
        assert ids[..k][i] == ids[i];
      }
    }
  }
}
