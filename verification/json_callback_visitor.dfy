/** The path-indexed callback dispatcher of
    include/flumps/detail/json_callback_visitor_impl.h.

    Registered value paths are kept in a trie. As the parser's events arrive, a
    cursor walks down the trie while the events follow a registered path. It also
    builds the path text (`path_`) of where it stands. Events below a node the trie
    does not have are only counted, on a stack of overflow markers. When a value
    completes at the cursor's node, the callbacks registered there run.

    The trie nodes live in an arena and refer to each other by index. A callback is
    known by the id it was registered with, and running it appends a `Call` to a
    log. */
module JsonCallbackVisitor {
  import opened Bytes
  import opened Exception
  import opened JsonEvents
  import opened JsonValuePath

  /** `Node::Type` */
  datatype NodeType = ObjectNode | ArrayNode | KeyNode

  /** A trie node: its type, the ids of its callbacks in registration order, its
      parent, its children and (for a Key node) its key. */
  datatype Node = Node(kind: NodeType, callbacks: seq<nat>, parent: Option<nat>, children: seq<nat>, key: seq<byte>)

  /** `Node::root_node()`: a Key node with no parent and an empty key. */
  const ROOT := Node(KeyNode, [], None, [], [])

  /** `OverFlowType`: the markers 'o', 'a' and 'k'. */
  datatype Mark = ObjectMark | ArrayMark | KeyMark

  /** `JsonCollectionTraits`: what a collection start or end does to the node
      type, the overflow marker, the reported value type and the path text. */
  datatype CollectionTraits = CollectionTraits(nodeType: NodeType, mark: Mark, valueType: ValueType, repr: seq<byte>)

  /** `json_object_traits` and `json_array_traits` of
      src/flumps/json_callback_visitor.cpp. */
  const OBJECT_TRAITS := CollectionTraits(ObjectNode, ObjectMark, Object, [DOT])
  const ARRAY_TRAITS := CollectionTraits(ArrayNode, ArrayMark, Array, [LBRACKET, RBRACKET])

  predicate IsTraits(t: CollectionTraits) {
    t == OBJECT_TRAITS || t == ARRAY_TRAITS
  }

  /** One run of a callback: its id, the value type, the path text, and the
      value's span as offset and length. */
  datatype Call = Call(id: nat, kind: ValueType, path: seq<byte>, start: nat, length: nat)

  /** Where the dispatcher stands: `pos_`, `overflow_` and `path_`. */
  datatype Cursor = Cursor(pos: nat, overflow: seq<Mark>, path: seq<byte>)

  // ---------------------------------------------------------------------------
  // The trie
  // ---------------------------------------------------------------------------

  /** Every node but the root has a parent earlier in the arena. A node is a Key
      node exactly when its parent is an Object node. */
  predicate ParentsBefore(nodes: seq<Node>) {
    forall j {:trigger nodes[j].parent} :: 0 < j < |nodes| ==>
      && nodes[j].parent.Some? && nodes[j].parent.value < j
      && (nodes[j].kind == KeyNode <==> nodes[nodes[j].parent.value].kind == ObjectNode)
  }

  /** Every child comes later in the arena and names its parent. */
  predicate ChildrenLinked(nodes: seq<Node>) {
    forall i, k :: 0 <= i < |nodes| && 0 <= k < |nodes[i].children| ==>
      i < nodes[i].children[k] < |nodes| && nodes[nodes[i].children[k]].parent == Some(i)
  }

  /** Two children of one node never stand for the same thing. */
  predicate Differ(x: Node, y: Node) {
    x.kind != y.kind || (x.kind == KeyNode && x.key != y.key)
  }

  /** At most one Object child, at most one Array child, and Key children with
      distinct keys. */
  predicate ChildrenDistinct(nodes: seq<Node>)
    requires ChildrenLinked(nodes)
  {
    forall i, a, b :: 0 <= i < |nodes| && 0 <= a < b < |nodes[i].children| ==>
      Differ(nodes[nodes[i].children[a]], nodes[nodes[i].children[b]])
  }

  /** Object nodes carry no callbacks. Only Key nodes have keys, and every Key
      node but the root has a non-empty one. */
  predicate NodeShapes(nodes: seq<Node>) {
    forall i :: 0 <= i < |nodes| ==>
      && (nodes[i].kind == ObjectNode ==> nodes[i].callbacks == [])
      && (nodes[i].kind != KeyNode ==> nodes[i].key == [])
      && (0 < i && nodes[i].kind == KeyNode ==> nodes[i].key != [])
  }

  /** The shape `register_callback` keeps: the root is a parentless Key node with
      an empty key, first in the arena, and the rest is linked as above. */
  predicate TrieValid(nodes: seq<Node>) {
    && |nodes| > 0
    && nodes[0].kind == KeyNode && nodes[0].parent.None? && nodes[0].key == []
    && ParentsBefore(nodes) && ChildrenLinked(nodes) && ChildrenDistinct(nodes)
    && NodeShapes(nodes)
  }

  lemma ChildOf(nodes: seq<Node>, i: nat, c: nat)
    requires TrieValid(nodes) && i < |nodes| && c in nodes[i].children
    ensures i < c < |nodes| && nodes[c].parent == Some(i)
    ensures nodes[c].kind == KeyNode <==> nodes[i].kind == ObjectNode
  {
    var k :| 0 <= k < |nodes[i].children| && nodes[i].children[k] == c;
  }

  /** A child list's node for a type (and, for a Key node, a key). */
  predicate Fits(n: Node, kind: NodeType, key: seq<byte>) {
    n.kind == kind && (kind == KeyNode ==> n.key == key)
  }

  /** The `std::find_if` searches: the first child that fits. (An index
      outside the arena never fits; in a valid trie there is none.) */
  function FindChild(nodes: seq<Node>, ids: seq<nat>, kind: NodeType, key: seq<byte>): (r: Option<nat>)
    ensures r.Some? ==> r.value in ids && r.value < |nodes| && Fits(nodes[r.value], kind, key)
    ensures r.None? ==> forall k :: 0 <= k < |ids| && ids[k] < |nodes| ==> !Fits(nodes[ids[k]], kind, key)
  {
    if ids == [] then None
    else if ids[0] < |nodes| && Fits(nodes[ids[0]], kind, key) then Some(ids[0])
    else FindChild(nodes, ids[1..], kind, key)
  }

  /** The child of `at` that fits, if any. */
  function ChildFor(nodes: seq<Node>, at: nat, kind: NodeType, key: seq<byte>): (r: Option<nat>)
    requires TrieValid(nodes) && at < |nodes|
    ensures r.Some? ==> at < r.value < |nodes| && nodes[r.value].parent == Some(at) && Fits(nodes[r.value], kind, key)
    ensures r.None? ==> forall c :: c in nodes[at].children ==> !Fits(nodes[c], kind, key)
  {
    var r := FindChild(nodes, nodes[at].children, kind, key);
    if r.Some? then ChildOf(nodes, at, r.value); r else r
  }

  /** What a node adds to the path text: "." for an object, "[]" for an array
      (".[]" when nothing comes before it) and the key for a Key node. */
  function Repr(kind: NodeType, key: seq<byte>, before: seq<byte>): seq<byte> {
    match kind
    case ObjectNode => OBJECT_TRAITS.repr
    case ArrayNode => (if before == [] then [DOT] else []) + ARRAY_TRAITS.repr
    case KeyNode => key
  }

  /** The path text of a node: the reprs of the nodes from the root down to it. */
  function NodePath(nodes: seq<Node>, i: nat): seq<byte>
    requires ParentsBefore(nodes) && i < |nodes|
    decreases i
  {
    if i == 0 then []
    else
      var before := NodePath(nodes, nodes[i].parent.value);
      before + Repr(nodes[i].kind, nodes[i].key, before)
  }

  /** Only the path of an Object node can be the single byte ".": every other
      node's path is empty (the root) or ends in a non-empty key or in "[]". */
  lemma PathNotDot(nodes: seq<Node>, i: nat)
    requires TrieValid(nodes) && i < |nodes| && nodes[i].kind != ObjectNode
    ensures |NodePath(nodes, i)| != 1
  {
    if i > 0 && nodes[i].kind == KeyNode {
      var p := nodes[i].parent.value;
      assert p > 0 && nodes[p].kind == ObjectNode;
      assert |NodePath(nodes, p)| >= 1;
    }
  }

  // ---------------------------------------------------------------------------
  // Registration
  // ---------------------------------------------------------------------------

  /** A fresh node of `kind` (with `key`) appended to the children of `at`. */
  function AddChild(nodes: seq<Node>, at: nat, kind: NodeType, key: seq<byte>): (r: seq<Node>)
    requires at < |nodes|
  {
    nodes[at := nodes[at].(children := nodes[at].children + [|nodes|])] + [Node(kind, [], Some(at), [], key)]
  }

  lemma AddChildValid(nodes: seq<Node>, at: nat, kind: NodeType, key: seq<byte>)
    requires TrieValid(nodes) && at < |nodes|
    requires kind == KeyNode <==> nodes[at].kind == ObjectNode
    requires kind == KeyNode <==> key != []
    requires ChildFor(nodes, at, kind, key).None?
    ensures TrieValid(AddChild(nodes, at, kind, key))
  {
    var r := AddChild(nodes, at, kind, key);
    AddChildKeeps(nodes, at, kind, key);
    assert ParentsBefore(r);
    assert NodeShapes(r);
    AddChildLinked(nodes, at, kind, key);
    AddChildDistinct(nodes, at, kind, key);
  }

  /** What appending a child leaves as it was. */
  lemma AddChildKeeps(nodes: seq<Node>, at: nat, kind: NodeType, key: seq<byte>)
    requires at < |nodes|
    ensures forall j :: 0 <= j < |nodes| ==>
      (&& AddChild(nodes, at, kind, key)[j].kind == nodes[j].kind
       && AddChild(nodes, at, kind, key)[j].parent == nodes[j].parent
       && AddChild(nodes, at, kind, key)[j].key == nodes[j].key
       && AddChild(nodes, at, kind, key)[j].callbacks == nodes[j].callbacks
       && AddChild(nodes, at, kind, key)[j].children
          == nodes[j].children + (if j == at then [|nodes|] else []))
  {
  }

  lemma AddChildLinked(nodes: seq<Node>, at: nat, kind: NodeType, key: seq<byte>)
    requires TrieValid(nodes) && at < |nodes|
    ensures ChildrenLinked(AddChild(nodes, at, kind, key))
  {
    var r := AddChild(nodes, at, kind, key);
    AddChildKeeps(nodes, at, kind, key);
    forall i, k | 0 <= i < |r| && 0 <= k < |r[i].children|
      ensures i < r[i].children[k] < |r| && r[r[i].children[k]].parent == Some(i)
    {
      if i < |nodes| && k < |nodes[i].children| {
        assert r[i].children[k] == nodes[i].children[k];
      }
    }
  }

  lemma AddChildDistinct(nodes: seq<Node>, at: nat, kind: NodeType, key: seq<byte>)
    requires TrieValid(nodes) && at < |nodes|
    requires ChildFor(nodes, at, kind, key).None?
    requires ChildrenLinked(AddChild(nodes, at, kind, key))
    ensures ChildrenDistinct(AddChild(nodes, at, kind, key))
  {
    var r := AddChild(nodes, at, kind, key);
    AddChildKeeps(nodes, at, kind, key);
    forall i, a, b | 0 <= i < |r| && 0 <= a < b < |r[i].children|
      ensures Differ(r[r[i].children[a]], r[r[i].children[b]])
    {
      assert r[i].children[a] == nodes[i].children[a];
      if i == at && b == |nodes[at].children| {
        assert nodes[at].children[a] in nodes[at].children;
        assert !Fits(nodes[nodes[at].children[a]], kind, key);
      } else {
        assert r[i].children[b] == nodes[i].children[b];
      }
    }
  }

  /** The child of `at` that fits, created if there is none: the trie after and
      the child. */
  function Child(nodes: seq<Node>, at: nat, kind: NodeType, key: seq<byte>): (r: (seq<Node>, nat))
    requires at < |nodes|
    ensures |nodes| <= |r.0| && r.1 < |r.0|
  {
    match FindChild(nodes, nodes[at].children, kind, key)
    case Some(c) => (nodes, c)
    case None => (AddChild(nodes, at, kind, key), |nodes|)
  }

  /** The walk of `register_callback` from `at` down the segments: an object
      segment goes through the Object child and then the Key child of its key,
      an array segment through the Array child. */
  function Descend(nodes: seq<Node>, at: nat, segs: seq<Segment>): (r: (seq<Node>, nat))
    requires at < |nodes|
    ensures |nodes| <= |r.0| && r.1 < |r.0|
    decreases |segs|
  {
    if segs == [] then (nodes, at)
    else if segs[0].IsObject() then
      var (n1, o) := Child(nodes, at, ObjectNode, []);
      var (n2, k) := Child(n1, o, KeyNode, segs[0].key);
      Descend(n2, k, segs[1..])
    else
      var (n1, a) := Child(nodes, at, ArrayNode, []);
      Descend(n1, a, segs[1..])
  }

  /** `register_callback`: the callback's id is appended to the node the walk
      ends at. */
  function Register(nodes: seq<Node>, segs: seq<Segment>, id: nat): (r: seq<Node>)
    requires TrieValid(nodes)
    ensures TrieValid(r)
  {
    DescendValid(nodes, 0, segs);
    var (n, t) := Descend(nodes, 0, segs);
    SetCallbacksValid(n, t, n[t].callbacks + [id]);
    n[t := n[t].(callbacks := n[t].callbacks + [id])]
  }

  /** Callbacks may be set on any node but an Object node. */
  lemma SetCallbacksValid(nodes: seq<Node>, t: nat, cbs: seq<nat>)
    requires TrieValid(nodes) && t < |nodes| && nodes[t].kind != ObjectNode
    ensures TrieValid(nodes[t := nodes[t].(callbacks := cbs)])
  {
    var r := nodes[t := nodes[t].(callbacks := cbs)];
    assert forall j :: 0 <= j < |nodes| ==>
      (r[j].kind == nodes[j].kind && r[j].parent == nodes[j].parent
       && r[j].children == nodes[j].children && r[j].key == nodes[j].key);
    assert ParentsBefore(r);
    assert ChildrenLinked(r);
    assert ChildrenDistinct(r);
  }

  /** Finding or creating a child keeps the trie valid and yields a later node
      that fits. */
  lemma ChildValid(nodes: seq<Node>, at: nat, kind: NodeType, key: seq<byte>)
    requires TrieValid(nodes) && at < |nodes|
    requires kind == KeyNode <==> nodes[at].kind == ObjectNode
    requires kind == KeyNode <==> key != []
    ensures TrieValid(Child(nodes, at, kind, key).0)
    ensures at < Child(nodes, at, kind, key).1 && Fits(Child(nodes, at, kind, key).0[Child(nodes, at, kind, key).1], kind, key)
  {
    if ChildFor(nodes, at, kind, key).None? {
      AddChildValid(nodes, at, kind, key);
    }
  }

  /** The walk of `register_callback` keeps the trie valid and ends on a node
      below (or at) where it began, never an Object node. */
  lemma {:induction false} DescendValid(nodes: seq<Node>, at: nat, segs: seq<Segment>)
    requires TrieValid(nodes) && at < |nodes| && nodes[at].kind != ObjectNode
    ensures TrieValid(Descend(nodes, at, segs).0)
    ensures at <= Descend(nodes, at, segs).1 && Descend(nodes, at, segs).0[Descend(nodes, at, segs).1].kind != ObjectNode
    decreases |segs|
  {
    if segs != [] {
      if segs[0].IsObject() {
        var (n1, o) := Child(nodes, at, ObjectNode, []);
        ChildValid(nodes, at, ObjectNode, []);
        var (n2, k) := Child(n1, o, KeyNode, segs[0].key);
        ChildValid(n1, o, KeyNode, segs[0].key);
        DescendValid(n2, k, segs[1..]);
      } else {
        var (n1, a) := Child(nodes, at, ArrayNode, []);
        ChildValid(nodes, at, ArrayNode, []);
        DescendValid(n1, a, segs[1..]);
      }
    }
  }

  /** `after` keeps every node of `before` (type, parent and key) and only
      appends to child lists. */
  predicate Extends(before: seq<Node>, after: seq<Node>) {
    |before| <= |after|
    && forall j :: 0 <= j < |before| ==>
      && after[j].kind == before[j].kind && after[j].parent == before[j].parent
      && after[j].key == before[j].key
      && |before[j].children| <= |after[j].children|
      && after[j].children[..|before[j].children|] == before[j].children
  }

  /** The callbacks of `before` are kept, and the nodes after them have none. */
  predicate CallbacksKept(before: seq<Node>, after: seq<Node>) {
    |before| <= |after|
    && forall j :: 0 <= j < |after| ==> after[j].callbacks == (if j < |before| then before[j].callbacks else [])
  }

  lemma {:induction false} ExtendsTransitive(a: seq<Node>, b: seq<Node>, c: seq<Node>)
    requires Extends(a, b) && Extends(b, c)
    ensures Extends(a, c)
  {
    forall j | 0 <= j < |a|
      ensures c[j].children[..|a[j].children|] == a[j].children
    {
      assert c[j].children[..|a[j].children|] == c[j].children[..|b[j].children|][..|a[j].children|];
    }
  }

  lemma ChildExtends(nodes: seq<Node>, at: nat, kind: NodeType, key: seq<byte>)
    requires at < |nodes|
    ensures Extends(nodes, Child(nodes, at, kind, key).0)
    ensures CallbacksKept(nodes, Child(nodes, at, kind, key).0)
  {
    if FindChild(nodes, nodes[at].children, kind, key).None? {
      AddChildKeeps(nodes, at, kind, key);
      var r := AddChild(nodes, at, kind, key);
      assert r[at].children[..|nodes[at].children|] == nodes[at].children;
    }
  }

  lemma {:induction false} KeptTransitive(a: seq<Node>, b: seq<Node>, c: seq<Node>)
    requires CallbacksKept(a, b) && CallbacksKept(b, c)
    ensures CallbacksKept(a, c)
  {
  }

  /** An object segment's two steps only add nodes and child links. */
  lemma ObjectStepExtends(nodes: seq<Node>, at: nat, key: seq<byte>)
    requires at < |nodes|
    ensures Extends(nodes, Child(Child(nodes, at, ObjectNode, []).0, Child(nodes, at, ObjectNode, []).1, KeyNode, key).0)
    ensures CallbacksKept(nodes, Child(Child(nodes, at, ObjectNode, []).0, Child(nodes, at, ObjectNode, []).1, KeyNode, key).0)
  {
    var (n1, o) := Child(nodes, at, ObjectNode, []);
    ChildExtends(nodes, at, ObjectNode, []);
    ChildExtends(n1, o, KeyNode, key);
    var n2 := Child(n1, o, KeyNode, key).0;
    ExtendsTransitive(nodes, n1, n2);
    KeptTransitive(nodes, n1, n2);
  }

  /** The walk of `register_callback` only adds nodes and child links. */
  lemma {:induction false} DescendExtends(nodes: seq<Node>, at: nat, segs: seq<Segment>)
    requires at < |nodes|
    ensures Extends(nodes, Descend(nodes, at, segs).0)
    ensures CallbacksKept(nodes, Descend(nodes, at, segs).0)
    decreases |segs|
  {
    if segs == [] {
    } else {
      var n1, a;
      if segs[0].IsObject() {
        var (m, o) := Child(nodes, at, ObjectNode, []);
        n1, a := Child(m, o, KeyNode, segs[0].key).0, Child(m, o, KeyNode, segs[0].key).1;
        ObjectStepExtends(nodes, at, segs[0].key);
      } else {
        n1, a := Child(nodes, at, ArrayNode, []).0, Child(nodes, at, ArrayNode, []).1;
        ChildExtends(nodes, at, ArrayNode, []);
      }
      assert Descend(nodes, at, segs) == Descend(n1, a, segs[1..]);
      DescendExtends(n1, a, segs[1..]);
      var r := Descend(n1, a, segs[1..]).0;
      ExtendsTransitive(nodes, n1, r);
      KeptTransitive(nodes, n1, r);
    }
  }

  /** The path text of a node does not change as the trie grows. */
  lemma {:induction false} NodePathExtends(before: seq<Node>, after: seq<Node>, i: nat)
    requires ParentsBefore(before) && ParentsBefore(after) && Extends(before, after) && i < |before|
    ensures NodePath(after, i) == NodePath(before, i)
    decreases i
  {
    if i > 0 {
      NodePathExtends(before, after, before[i].parent.value);
    }
  }

  /** Registration keeps the path text of every node that was there. */
  lemma RegisterKeepsPaths(nodes: seq<Node>, segs: seq<Segment>, id: nat, i: nat)
    requires TrieValid(nodes) && i < |nodes|
    ensures i < |Register(nodes, segs, id)|
    ensures NodePath(Register(nodes, segs, id), i) == NodePath(nodes, i)
  {
    DescendExtends(nodes, 0, segs);
    var (n, t) := Descend(nodes, 0, segs);
    var r := Register(nodes, segs, id);
    assert Extends(n, r);
    ExtendsTransitive(nodes, n, r);
    NodePathExtends(nodes, r, i);
  }

  /** A cursor stays valid across a registration. */
  lemma RegisterKeepsCursor(nodes: seq<Node>, segs: seq<Segment>, id: nat, c: Cursor)
    requires CursorValid(nodes, c)
    ensures CursorValid(Register(nodes, segs, id), c)
  {
    RegisterKeepsPaths(nodes, segs, id, c.pos);
  }

  // ---------------------------------------------------------------------------
  // The event steps
  // ---------------------------------------------------------------------------

  /** A cursor on a node of a valid trie, with the path text of that node. */
  predicate CursorValid(nodes: seq<Node>, c: Cursor) {
    TrieValid(nodes) && c.pos < |nodes| && c.path == NodePath(nodes, c.pos)
  }

  /** The assertion of `on_object_key`: the cursor is on an Object node, or an
      object is the innermost unmatched collection. */
  predicate KeyAllowed(nodes: seq<Node>, c: Cursor)
    requires c.pos < |nodes|
  {
    if c.overflow == [] then nodes[c.pos].kind == ObjectNode else Last(c.overflow) == ObjectMark
  }

  /** The assertion of `on_primitive_value` and `do_collection_start`: a value
      may come here, so not directly inside an object. */
  predicate ValueAllowed(nodes: seq<Node>, c: Cursor)
    requires c.pos < |nodes|
  {
    if c.overflow == [] then nodes[c.pos].kind != ObjectNode else Last(c.overflow) != ObjectMark
  }

  /** The assertion of `do_collection_end`: the collection being closed is the
      cursor's node (not the root) or the innermost unmatched one. */
  predicate EndAllowed(nodes: seq<Node>, c: Cursor, t: CollectionTraits)
    requires c.pos < |nodes|
  {
    if c.overflow == [] then nodes[c.pos].kind == t.nodeType && nodes[c.pos].parent.Some?
    else Last(c.overflow) == t.mark
  }

  /** `exec_callbacks`: every callback of the cursor's node, in registration
      order, each given the path text ("." for the empty path). */
  function Fired(nodes: seq<Node>, c: Cursor, kind: ValueType, start: nat, length: nat): (r: seq<Call>)
    requires c.pos < |nodes|
    ensures |r| == |nodes[c.pos].callbacks|
    ensures forall k :: 0 <= k < |r| ==>
      r[k] == Call(nodes[c.pos].callbacks[k], kind, if c.path == [] then [DOT] else c.path, start, length)
  {
    var cbs := nodes[c.pos].callbacks;
    seq(|cbs|, k requires 0 <= k < |cbs| => Call(cbs[k], kind, if c.path == [] then [DOT] else c.path, start, length))
  }

  /** After a value at a Key node: back to the Object node, with the key
      trimmed from the path text. Elsewhere nothing changes. */
  function StepBack(nodes: seq<Node>, c: Cursor): (r: Cursor)
    requires CursorValid(nodes, c)
    ensures CursorValid(nodes, r) && r.overflow == c.overflow
  {
    var p := nodes[c.pos].parent;
    if p.Some? && nodes[p.value].kind == ObjectNode then
      Cursor(p.value, c.overflow, c.path[..|c.path| - |nodes[c.pos].key|])
    else c
  }

  /** `do_collection_start` */
  function StartStep(nodes: seq<Node>, c: Cursor, t: CollectionTraits): (r: Cursor)
    requires CursorValid(nodes, c) && IsTraits(t) && ValueAllowed(nodes, c)
    ensures CursorValid(nodes, r)
  {
    if c.overflow == [] then
      match ChildFor(nodes, c.pos, t.nodeType, [])
      case Some(ch) =>
        Cursor(ch, c.overflow, (if c.path == [] && t.nodeType == ArrayNode then c.path + [DOT] else c.path) + t.repr)
      case None => c.(overflow := c.overflow + [t.mark])
    else c.(overflow := c.overflow + [t.mark])
  }

  /** `on_object_key` */
  function KeyStep(nodes: seq<Node>, c: Cursor, key: seq<byte>): (r: Cursor)
    requires CursorValid(nodes, c) && KeyAllowed(nodes, c)
    ensures CursorValid(nodes, r)
  {
    if c.overflow == [] then
      match ChildFor(nodes, c.pos, KeyNode, key)
      case Some(ch) => Cursor(ch, c.overflow, c.path + nodes[ch].key)
      case None => c.(overflow := c.overflow + [KeyMark])
    else c.(overflow := c.overflow + [KeyMark])
  }

  /** `on_primitive_value`: the new cursor and the callbacks run. */
  function PrimitiveStep(nodes: seq<Node>, c: Cursor, kind: ValueType, start: nat, length: nat): (r: (Cursor, seq<Call>))
    requires CursorValid(nodes, c) && ValueAllowed(nodes, c)
    ensures CursorValid(nodes, r.0)
  {
    if c.overflow == [] then (StepBack(nodes, c), Fired(nodes, c, kind, start, length))
    else if Last(c.overflow) == KeyMark then (c.(overflow := DropLast(c.overflow)), [])
    else (c, [])
  }

  /** The path text after closing the cursor's collection: its repr trimmed,
      and a lone "." left by a root array cleared. */
  function ClosedPath(path: seq<byte>, t: CollectionTraits): seq<byte>
    requires |t.repr| <= |path|
  {
    var trimmed := path[..|path| - |t.repr|];
    if t.nodeType == ArrayNode && |trimmed| == 1 then [] else trimmed
  }

  /** Closing a matched collection gives the path text of its parent. */
  lemma ClosePath(nodes: seq<Node>, c: Cursor, t: CollectionTraits)
    requires CursorValid(nodes, c) && IsTraits(t) && c.overflow == [] && EndAllowed(nodes, c, t)
    ensures |t.repr| <= |c.path| && ClosedPath(c.path, t) == NodePath(nodes, nodes[c.pos].parent.value)
  {
    var parent := nodes[c.pos].parent.value;
    var before := NodePath(nodes, parent);
    assert c.path == before + Repr(t.nodeType, [], before);
    if t.nodeType == ArrayNode {
      PathNotDot(nodes, parent);
    }
  }

  /** `do_collection_end`: the new cursor and the callbacks run. */
  function EndStep(nodes: seq<Node>, c: Cursor, t: CollectionTraits, start: nat, length: nat): (r: (Cursor, seq<Call>))
    requires CursorValid(nodes, c) && IsTraits(t) && EndAllowed(nodes, c, t)
    ensures CursorValid(nodes, r.0)
  {
    if c.overflow == [] then
      ClosePath(nodes, c, t);
      var up := Cursor(nodes[c.pos].parent.value, c.overflow, ClosedPath(c.path, t));
      (StepBack(nodes, up), Fired(nodes, up, t.valueType, start, length))
    else
      var rest := DropLast(c.overflow);
      if rest == [] then
        var c1 := c.(overflow := rest);
        (StepBack(nodes, c1), Fired(nodes, c1, t.valueType, start, length))
      else if Last(rest) == KeyMark then (c.(overflow := DropLast(rest)), [])
      else (c.(overflow := rest), [])
  }

  /** The cases of `EndStep`, one per branch of `do_collection_end`. */
  lemma EndStepCases(nodes: seq<Node>, c: Cursor, t: CollectionTraits, start: nat, length: nat)
    requires CursorValid(nodes, c) && IsTraits(t) && EndAllowed(nodes, c, t)
    ensures c.overflow == [] ==>
      && |t.repr| <= |c.path|
      && var up := Cursor(nodes[c.pos].parent.value, [], ClosedPath(c.path, t));
         CursorValid(nodes, up)
         && EndStep(nodes, c, t, start, length) == (StepBack(nodes, up), Fired(nodes, up, t.valueType, start, length))
    ensures c.overflow != [] && DropLast(c.overflow) == [] ==>
      var c1 := c.(overflow := []);
      EndStep(nodes, c, t, start, length) == (StepBack(nodes, c1), Fired(nodes, c1, t.valueType, start, length))
    ensures c.overflow != [] && DropLast(c.overflow) != [] ==>
      var rest := DropLast(c.overflow);
      EndStep(nodes, c, t, start, length) == (c.(overflow := if Last(rest) == KeyMark then DropLast(rest) else rest), [])
  {
    if c.overflow == [] {
      ClosePath(nodes, c, t);
    }
  }

  // ---------------------------------------------------------------------------
  // The dispatcher
  // ---------------------------------------------------------------------------

  /** `JsonCallbackVisitorImpl`: the trie (`root_` and the nodes below it), the
      cursor (`pos_`, `overflow_`, `path_`) and the log of callbacks run. */
  class JsonCallbackVisitorImpl {
    var nodes: seq<Node>
    var pos: nat
    var overflow: seq<Mark>
    var path: seq<byte>
    var calls: seq<Call>

    ghost predicate Valid()
      reads this
    {
      CursorValid(nodes, At())
    }

    function At(): Cursor
      reads this
    {
      Cursor(pos, overflow, path)
    }

    /** A trie of the root alone, the cursor on it, nothing run yet. */
    constructor ()
      ensures Valid() && nodes == [ROOT] && At() == Cursor(0, [], []) && calls == []
    {
      nodes := [ROOT];
      pos := 0;
      overflow := [];
      path := [];
      calls := [];
    }

    /** A `std::find_if` over the children of node `at`. */
    method FindChildNode(at: nat, kind: NodeType, key: seq<byte>) returns (r: Option<nat>)
      requires at < |nodes|
      ensures r == FindChild(nodes, nodes[at].children, kind, key)
    {
      var ids := nodes[at].children;
      var k := 0;
      while k < |ids|
        invariant k <= |ids|
        invariant FindChild(nodes, ids, kind, key) == FindChild(nodes, ids[k..], kind, key)
      {
        if ids[k] < |nodes| && Fits(nodes[ids[k]], kind, key) {
          return Some(ids[k]);
        }
        assert ids[k..][1..] == ids[k + 1..];
        k := k + 1;
      }
      return None;
    }

    /** One find-or-`push_back` step of `register_callback`. */
    method InsertChild(at: nat, kind: NodeType, key: seq<byte>) returns (c: nat)
      requires at < |nodes|
      modifies this`nodes
      ensures (nodes, c) == Child(old(nodes), at, kind, key)
    {
      var m := FindChildNode(at, kind, key);
      if m.Some? {
        c := m.value;
      } else {
        c := |nodes|;
        nodes := nodes[at := nodes[at].(children := nodes[at].children + [c])] + [Node(kind, [], Some(at), [], key)];
      }
    }

    /** One segment of the walk of `register_callback`: the Object child and
        then the Key child for an object segment, the Array child for an array
        segment. */
    method DescendSegment(at: nat, segs: seq<Segment>, k: nat) returns (next: nat)
      requires at < |nodes| && k < |segs|
      modifies this`nodes
      ensures next < |nodes|
      ensures Descend(old(nodes), at, segs[k..]) == Descend(nodes, next, segs[k + 1..])
    {
      var seg := segs[k];
      assert segs[k..][0] == seg && segs[k..][1..] == segs[k + 1..];
      if seg.IsObject() {
        var o := InsertChild(at, ObjectNode, []);
        next := InsertChild(o, KeyNode, seg.key);
      } else {
        next := InsertChild(at, ArrayNode, []);
      }
    }

    /** The loop of `register_callback` over the path's segments: the node it
        ends at, with what was missing created. */
    method DescendPath(segs: seq<Segment>) returns (at: nat)
      requires nodes != []
      modifies this`nodes
      ensures Descend(old(nodes), 0, segs) == (nodes, at)
    {
      at := 0;
      for k := 0 to |segs|
        invariant at < |nodes|
        invariant Descend(old(nodes), 0, segs) == Descend(nodes, at, segs[k..])
      {
        at := DescendSegment(at, segs, k);
      }
      assert segs[|segs|..] == [];
    }

    /** `register_callback`: walk the path's segments down the trie, creating
        what is missing, and append the callback at the end of the walk. */
    method RegisterCallback(p: Path, id: nat)
      requires Valid()
      modifies this`nodes
      ensures Valid() && nodes == Register(old(nodes), p.segments, id)
    {
      var at := DescendPath(p.segments);
      nodes := nodes[at := nodes[at].(callbacks := nodes[at].callbacks + [id])];
      RegisterKeepsCursor(old(nodes), p.segments, id, At());
    }

    /** `exec_callbacks` */
    method ExecCallbacks(kind: ValueType, start: nat, length: nat)
      requires pos < |nodes|
      modifies this`calls
      ensures calls == old(calls) + Fired(nodes, At(), kind, start, length)
    {
      var cbs := nodes[pos].callbacks;
      var reported := if path == [] then [DOT] else path;
      ghost var fired := Fired(nodes, At(), kind, start, length);
      for k := 0 to |cbs|
        invariant calls == old(calls) + fired[..k]
      {
        assert fired[..k + 1] == fired[..k] + [fired[k]];
        calls := calls + [Call(cbs[k], kind, reported, start, length)];
      }
      assert fired[..|cbs|] == fired;
    }

    /** The step back from a Key node to its Object node that ends
        `on_primitive_value` and `do_collection_end`. */
    method StepBackUp()
      requires Valid()
      modifies this`pos, this`path
      ensures At() == StepBack(nodes, old(At()))
    {
      var parent := nodes[pos].parent;
      if parent.Some? && nodes[parent.value].kind == ObjectNode {
        path := path[..|path| - |nodes[pos].key|];
        pos := parent.value;
      }
    }

    /** `do_collection_start` */
    method DoCollectionStart(t: CollectionTraits)
      requires Valid() && IsTraits(t) && ValueAllowed(nodes, At())
      modifies this`pos, this`overflow, this`path
      ensures At() == StartStep(nodes, old(At()), t)
    {
      if overflow == [] {
        var m := FindChildNode(pos, t.nodeType, []);
        if m.Some? {
          pos := m.value;
          if path == [] && t.nodeType == ArrayNode {
            path := path + [DOT];
          }
          path := path + t.repr;
        } else {
          overflow := overflow + [t.mark];
        }
      } else {
        overflow := overflow + [t.mark];
      }
    }

    /** `do_collection_end` */
    method DoCollectionEnd(t: CollectionTraits, start: nat, length: nat)
      requires Valid() && IsTraits(t) && EndAllowed(nodes, At(), t)
      modifies this`pos, this`overflow, this`path, this`calls
      ensures At() == EndStep(nodes, old(At()), t, start, length).0
      ensures calls == old(calls) + EndStep(nodes, old(At()), t, start, length).1
    {
      ghost var c := At();
      EndStepCases(nodes, c, t, start, length);
      if overflow == [] {
        path := path[..|path| - |t.repr|];
        if t.nodeType == ArrayNode && |path| == 1 {
          path := [];
        }
        pos := nodes[pos].parent.value;
        ghost var up := At();
        assert up == Cursor(nodes[c.pos].parent.value, [], ClosedPath(c.path, t));
        ExecCallbacks(t.valueType, start, length);
        StepBackUp();
        assert At() == StepBack(nodes, up);
      } else {
        overflow := overflow[..|overflow| - 1];
        if overflow == [] {
          assert At() == c.(overflow := []);
          ExecCallbacks(t.valueType, start, length);
          StepBackUp();
        } else if overflow[|overflow| - 1] == KeyMark {
          overflow := overflow[..|overflow| - 1];
        }
      }
    }

    method OnObjectStart(start: nat)
      requires Valid() && ValueAllowed(nodes, At())
      modifies this`pos, this`overflow, this`path
      ensures Valid() && At() == StartStep(nodes, old(At()), OBJECT_TRAITS)
    {
      DoCollectionStart(OBJECT_TRAITS);
    }

    method OnArrayStart(start: nat)
      requires Valid() && ValueAllowed(nodes, At())
      modifies this`pos, this`overflow, this`path
      ensures Valid() && At() == StartStep(nodes, old(At()), ARRAY_TRAITS)
    {
      DoCollectionStart(ARRAY_TRAITS);
    }

    method OnObjectEnd(start: nat, length: nat)
      requires Valid() && EndAllowed(nodes, At(), OBJECT_TRAITS)
      modifies this`pos, this`overflow, this`path, this`calls
      ensures Valid()
      ensures At() == EndStep(nodes, old(At()), OBJECT_TRAITS, start, length).0
      ensures calls == old(calls) + EndStep(nodes, old(At()), OBJECT_TRAITS, start, length).1
    {
      DoCollectionEnd(OBJECT_TRAITS, start, length);
    }

    method OnArrayEnd(start: nat, length: nat)
      requires Valid() && EndAllowed(nodes, At(), ARRAY_TRAITS)
      modifies this`pos, this`overflow, this`path, this`calls
      ensures Valid()
      ensures At() == EndStep(nodes, old(At()), ARRAY_TRAITS, start, length).0
      ensures calls == old(calls) + EndStep(nodes, old(At()), ARRAY_TRAITS, start, length).1
    {
      DoCollectionEnd(ARRAY_TRAITS, start, length);
    }

    /** `on_object_key`, given the key's bytes. */
    method OnObjectKey(key: seq<byte>)
      requires Valid() && KeyAllowed(nodes, At())
      modifies this`pos, this`overflow, this`path
      ensures Valid() && At() == KeyStep(nodes, old(At()), key)
    {
      if overflow == [] {
        var m := FindChildNode(pos, KeyNode, key);
        if m.Some? {
          pos := m.value;
          path := path + nodes[pos].key;
        } else {
          overflow := overflow + [KeyMark];
        }
      } else {
        overflow := overflow + [KeyMark];
      }
    }

    /** `on_primitive_value` */
    method OnPrimitiveValue(kind: ValueType, start: nat, length: nat)
      requires Valid() && ValueAllowed(nodes, At())
      modifies this`pos, this`overflow, this`path, this`calls
      ensures Valid()
      ensures At() == PrimitiveStep(nodes, old(At()), kind, start, length).0
      ensures calls == old(calls) + PrimitiveStep(nodes, old(At()), kind, start, length).1
    {
      if overflow == [] {
        ExecCallbacks(kind, start, length);
        StepBackUp();
      } else if overflow[|overflow| - 1] == KeyMark {
        overflow := overflow[..|overflow| - 1];
      }
    }
  }
}
