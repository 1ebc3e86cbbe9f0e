/** What the dispatcher of include/flumps/detail/json_callback_visitor_impl.h
    promises, stated against two reference definitions:

    - `Lookup`: the node a value path names in a trie, by a walk that creates
      nothing. Registration is proved to make the path name a node that carries
      the new callback, and to disturb no other path.
    - `Track`: the cursor as a function of the collections and keys open at a
      point of the event stream (the scopes). Each event handler is proved to
      move from the cursor of the scopes before the event to the cursor of the
      scopes after it. So after the events of one whole root value the cursor is
      back at the root with nothing pending, and the dispatcher is ready for the
      next parse. */
module JsonCallbackVisitorProperties {
  import opened Bytes
  import opened Exception
  import opened JsonEvents
  import opened JsonValuePath
  import opened JsonValuePathProperties
  import opened JsonCallbackVisitor
  import opened JsonGrammar
  import opened JsonGrammarProperties

  // ---------------------------------------------------------------------------
  // Registration
  // ---------------------------------------------------------------------------

  /** The node a path names below `at`, if the trie has it. */
  function Lookup(nodes: seq<Node>, at: nat, segs: seq<Segment>): (r: Option<nat>)
    requires at < |nodes|
    ensures r.Some? ==> r.value < |nodes|
    decreases |segs|
  {
    if segs == [] then Some(at)
    else if segs[0].IsObject() then
      match FindChild(nodes, nodes[at].children, ObjectNode, [])
      case None => None
      case Some(o) =>
        match FindChild(nodes, nodes[o].children, KeyNode, segs[0].key)
        case None => None
        case Some(k) => Lookup(nodes, k, segs[1..])
    else
      match FindChild(nodes, nodes[at].children, ArrayNode, [])
      case None => None
      case Some(a) => Lookup(nodes, a, segs[1..])
  }

  /** A child found in a list is still the one found when the list grows and
      the nodes it names keep their type and key. */
  lemma {:induction false} FindChildKept(before: seq<Node>, after: seq<Node>, ids: seq<nat>, more: seq<nat>,
                                         kind: NodeType, key: seq<byte>)
    requires forall k :: 0 <= k < |ids| ==> ids[k] < |before|
    requires |before| <= |after|
    requires forall j :: 0 <= j < |before| ==> after[j].kind == before[j].kind && after[j].key == before[j].key
    requires FindChild(before, ids, kind, key).Some?
    ensures FindChild(after, ids + more, kind, key) == FindChild(before, ids, kind, key)
    decreases |ids|
  {
    assert (ids + more)[0] == ids[0];
    if !Fits(before[ids[0]], kind, key) {
      assert (ids + more)[1..] == ids[1..] + more;
      FindChildKept(before, after, ids[1..], more, kind, key);
    }
  }

  /** In a grown trie, a child found before is found again. */
  lemma FoundStaysFound(before: seq<Node>, after: seq<Node>, at: nat, kind: NodeType, key: seq<byte>)
    requires TrieValid(before) && Extends(before, after) && at < |before|
    requires FindChild(before, before[at].children, kind, key).Some?
    ensures FindChild(after, after[at].children, kind, key) == FindChild(before, before[at].children, kind, key)
  {
    var ids := before[at].children;
    var more := after[at].children[|ids|..];
    assert after[at].children == ids + more;
    FindChildKept(before, after, ids, more, kind, key);
  }

  /** In a grown trie, a path found before names the same node. */
  lemma {:induction false} LookupStaysFound(before: seq<Node>, after: seq<Node>, at: nat, segs: seq<Segment>)
    requires TrieValid(before) && Extends(before, after) && at < |before|
    requires Lookup(before, at, segs).Some?
    ensures Lookup(after, at, segs) == Lookup(before, at, segs)
    decreases |segs|
  {
    if segs != [] {
      if segs[0].IsObject() {
        var o := FindChild(before, before[at].children, ObjectNode, []).value;
        FoundStaysFound(before, after, at, ObjectNode, []);
        FoundStaysFound(before, after, o, KeyNode, segs[0].key);
        var k := FindChild(before, before[o].children, KeyNode, segs[0].key).value;
        LookupStaysFound(before, after, k, segs[1..]);
      } else {
        FoundStaysFound(before, after, at, ArrayNode, []);
        var a := FindChild(before, before[at].children, ArrayNode, []).value;
        LookupStaysFound(before, after, a, segs[1..]);
      }
    }
  }

  /** Changing callbacks does not change which node a path names. */
  lemma {:induction false} LookupIgnoresCallbacks(nodes: seq<Node>, t: nat, cbs: seq<nat>, at: nat, segs: seq<Segment>)
    requires t < |nodes| && at < |nodes|
    ensures Lookup(nodes[t := nodes[t].(callbacks := cbs)], at, segs) == Lookup(nodes, at, segs)
    decreases |segs|
  {
    var r := nodes[t := nodes[t].(callbacks := cbs)];
    assert forall j :: 0 <= j < |nodes| ==> r[j].kind == nodes[j].kind && r[j].key == nodes[j].key;
    assert forall j :: 0 <= j < |nodes| ==> r[j].children == nodes[j].children;
    FindChildSame(nodes, r, nodes[at].children, ObjectNode, []);
    FindChildSame(nodes, r, nodes[at].children, ArrayNode, []);
    if segs != [] {
      if segs[0].IsObject() {
        match FindChild(nodes, nodes[at].children, ObjectNode, [])
        case None =>
        case Some(o) =>
          FindChildSame(nodes, r, nodes[o].children, KeyNode, segs[0].key);
          match FindChild(nodes, nodes[o].children, KeyNode, segs[0].key)
          case None =>
          case Some(k) => LookupIgnoresCallbacks(nodes, t, cbs, k, segs[1..]);
      } else {
        match FindChild(nodes, nodes[at].children, ArrayNode, [])
        case None =>
        case Some(a) => LookupIgnoresCallbacks(nodes, t, cbs, a, segs[1..]);
      }
    }
  }

  lemma {:induction false} FindChildSame(a: seq<Node>, b: seq<Node>, ids: seq<nat>, kind: NodeType, key: seq<byte>)
    requires |a| == |b|
    requires forall j :: 0 <= j < |a| ==> a[j].kind == b[j].kind && a[j].key == b[j].key
    ensures FindChild(a, ids, kind, key) == FindChild(b, ids, kind, key)
    decreases |ids|
  {
    if ids != [] {
      FindChildSame(a, b, ids[1..], kind, key);
    }
  }

  /** After finding or creating a child, it is the child found. */
  lemma ChildFound(nodes: seq<Node>, at: nat, kind: NodeType, key: seq<byte>)
    requires TrieValid(nodes) && at < |nodes|
    requires kind == KeyNode <==> nodes[at].kind == ObjectNode
    requires kind == KeyNode <==> key != []
    ensures FindChild(Child(nodes, at, kind, key).0, Child(nodes, at, kind, key).0[at].children, kind, key)
      == Some(Child(nodes, at, kind, key).1)
  {
    if FindChild(nodes, nodes[at].children, kind, key).None? {
      var r := AddChild(nodes, at, kind, key);
      AddChildKeeps(nodes, at, kind, key);
      var ids := nodes[at].children;
      assert forall k :: 0 <= k < |ids| ==> ids[k] < |nodes|;
      NothingFitsBefore(nodes, r, ids, [|nodes|], kind, key);
    }
  }

  /** When no child of a list fits, the first fitting one of a longer list is
      found among the added ones. */
  lemma {:induction false} NothingFitsBefore(before: seq<Node>, after: seq<Node>, ids: seq<nat>, more: seq<nat>,
                                             kind: NodeType, key: seq<byte>)
    requires forall k :: 0 <= k < |ids| ==> ids[k] < |before|
    requires |before| <= |after|
    requires forall j :: 0 <= j < |before| ==> after[j].kind == before[j].kind && after[j].key == before[j].key
    requires FindChild(before, ids, kind, key).None?
    ensures FindChild(after, ids + more, kind, key) == FindChild(after, more, kind, key)
    decreases |ids|
  {
    if ids == [] {
      assert ids + more == more;
    } else {
      assert (ids + more)[0] == ids[0];
      assert (ids + more)[1..] == ids[1..] + more;
      NothingFitsBefore(before, after, ids[1..], more, kind, key);
    }
  }

  /** The walk of registration leads to a node the path then names. */
  lemma {:induction false} DescendFound(nodes: seq<Node>, at: nat, segs: seq<Segment>)
    requires TrieValid(nodes) && at < |nodes| && nodes[at].kind != ObjectNode
    ensures Lookup(Descend(nodes, at, segs).0, at, segs) == Some(Descend(nodes, at, segs).1)
    decreases |segs|, 1
  {
    if segs != [] {
      if segs[0].IsObject() {
        DescendFoundObject(nodes, at, segs);
      } else {
        var (n1, a) := Child(nodes, at, ArrayNode, []);
        ChildValid(nodes, at, ArrayNode, []);
        ChildFound(nodes, at, ArrayNode, []);
        DescendValid(n1, a, segs[1..]);
        DescendExtends(n1, a, segs[1..]);
        DescendFound(n1, a, segs[1..]);
        FoundStaysFound(n1, Descend(n1, a, segs[1..]).0, at, ArrayNode, []);
      }
    }
  }

  /** The object-segment case of DescendFound: through the Object child and
      the Key child, both still found in the grown trie. */
  lemma {:induction false} DescendFoundObject(nodes: seq<Node>, at: nat, segs: seq<Segment>)
    requires TrieValid(nodes) && at < |nodes| && nodes[at].kind != ObjectNode
    requires segs != [] && segs[0].IsObject()
    ensures Lookup(Descend(nodes, at, segs).0, at, segs) == Some(Descend(nodes, at, segs).1)
    decreases |segs|, 0
  {
    var (n1, o) := Child(nodes, at, ObjectNode, []);
    ChildValid(nodes, at, ObjectNode, []);
    ChildFound(nodes, at, ObjectNode, []);
    var (n2, k) := Child(n1, o, KeyNode, segs[0].key);
    ChildValid(n1, o, KeyNode, segs[0].key);
    ChildFound(n1, o, KeyNode, segs[0].key);
    ChildExtends(n1, o, KeyNode, segs[0].key);
    DescendValid(n2, k, segs[1..]);
    DescendExtends(n2, k, segs[1..]);
    DescendFound(n2, k, segs[1..]);
    var r := Descend(n2, k, segs[1..]).0;
    ExtendsTransitive(n1, n2, r);
    FoundStaysFound(n1, r, at, ObjectNode, []);
    FoundStaysFound(n2, r, o, KeyNode, segs[0].key);
  }

  /** A path the trie already has is walked without creating anything. */
  lemma {:induction false} DescendExisting(nodes: seq<Node>, at: nat, segs: seq<Segment>)
    requires at < |nodes| && Lookup(nodes, at, segs).Some?
    ensures Descend(nodes, at, segs) == (nodes, Lookup(nodes, at, segs).value)
    decreases |segs|
  {
    if segs != [] {
      if segs[0].IsObject() {
        var o := FindChild(nodes, nodes[at].children, ObjectNode, []).value;
        var k := FindChild(nodes, nodes[o].children, KeyNode, segs[0].key).value;
        DescendExisting(nodes, k, segs[1..]);
      } else {
        var a := FindChild(nodes, nodes[at].children, ArrayNode, []).value;
        DescendExisting(nodes, a, segs[1..]);
      }
    }
  }

  /** A path the trie does not have ends the walk at a node created by it. */
  lemma {:induction false} DescendMissing(nodes: seq<Node>, at: nat, segs: seq<Segment>)
    requires TrieValid(nodes) && at < |nodes| && nodes[at].kind != ObjectNode
    requires Lookup(nodes, at, segs).None?
    ensures Descend(nodes, at, segs).1 >= |nodes|
    decreases |segs|
  {
    if segs[0].IsObject() {
      var (n1, o) := Child(nodes, at, ObjectNode, []);
      ChildValid(nodes, at, ObjectNode, []);
      var (n2, k) := Child(n1, o, KeyNode, segs[0].key);
      ChildValid(n1, o, KeyNode, segs[0].key);
      DescendValid(n2, k, segs[1..]);
      if n1 == nodes && n2 == nodes {
        DescendMissing(nodes, k, segs[1..]);
      } else {
        assert k >= |nodes|;
      }
    } else {
      var (n1, a) := Child(nodes, at, ArrayNode, []);
      ChildValid(nodes, at, ArrayNode, []);
      DescendValid(n1, a, segs[1..]);
      if n1 == nodes {
        DescendMissing(nodes, a, segs[1..]);
      }
    }
  }

  /** `register_callback`: afterwards the path names a node whose callbacks are
      those it had (none, if the path is new) followed by the new one. A path
      registered before names the same node and no node is added. Every other
      node keeps its callbacks, and every path the trie had names the same node
      as before. */
  lemma RegisterAppends(nodes: seq<Node>, segs: seq<Segment>, id: nat)
    requires TrieValid(nodes)
    ensures Lookup(Register(nodes, segs, id), 0, segs).Some?
    ensures
      var r := Register(nodes, segs, id);
      var t := Lookup(r, 0, segs).value;
      && r[t].callbacks == (if Lookup(nodes, 0, segs).Some? then nodes[Lookup(nodes, 0, segs).value].callbacks else []) + [id]
      && (Lookup(nodes, 0, segs).Some? ==> |r| == |nodes| && Lookup(nodes, 0, segs) == Some(t))
      && (forall j :: 0 <= j < |r| && j != t ==> r[j].callbacks == (if j < |nodes| then nodes[j].callbacks else []))
  {
    var (n, t) := Descend(nodes, 0, segs);
    DescendValid(nodes, 0, segs);
    DescendExtends(nodes, 0, segs);
    DescendFound(nodes, 0, segs);
    LookupIgnoresCallbacks(n, t, n[t].callbacks + [id], 0, segs);
    if Lookup(nodes, 0, segs).Some? {
      DescendExisting(nodes, 0, segs);
    } else {
      DescendMissing(nodes, 0, segs);
    }
  }

  /** Registering one path leaves every path the trie had naming the same node. */
  lemma RegisterKeepsLookups(nodes: seq<Node>, segs: seq<Segment>, id: nat, other: seq<Segment>)
    requires TrieValid(nodes) && Lookup(nodes, 0, other).Some?
    ensures Lookup(Register(nodes, segs, id), 0, other) == Lookup(nodes, 0, other)
  {
    var (n, t) := Descend(nodes, 0, segs);
    DescendValid(nodes, 0, segs);
    DescendExtends(nodes, 0, segs);
    LookupStaysFound(nodes, n, 0, other);
    LookupIgnoresCallbacks(n, t, n[t].callbacks + [id], 0, other);
  }

  // ---------------------------------------------------------------------------
  // The cursor as a function of the open scopes
  // ---------------------------------------------------------------------------

  /** An open collection or key of the event stream, innermost last. */
  datatype Scope = ObjectScope | ArrayScope | KeyScope(key: seq<byte>)

  function KindOf(x: Scope): NodeType {
    match x
    case ObjectScope => ObjectNode
    case ArrayScope => ArrayNode
    case KeyScope(_) => KeyNode
  }

  function KeyOf(x: Scope): seq<byte> {
    if x.KeyScope? then x.key else []
  }

  function MarkOf(x: Scope): Mark {
    match x
    case ObjectScope => ObjectMark
    case ArrayScope => ArrayMark
    case KeyScope(_) => KeyMark
  }

  /** The scope a collection's traits open. */
  function ScopeOf(t: CollectionTraits): Scope {
    if t.nodeType == ObjectNode then ObjectScope else ArrayScope
  }

  /** Entering a scope: the matching child, with its path text, while nothing
      is pending; otherwise one more pending marker. */
  function Enter(nodes: seq<Node>, c: Cursor, x: Scope): (r: Cursor)
    requires CursorValid(nodes, c)
    ensures CursorValid(nodes, r)
  {
    if c.overflow != [] then c.(overflow := c.overflow + [MarkOf(x)])
    else
      match ChildFor(nodes, c.pos, KindOf(x), KeyOf(x))
      case Some(ch) => Cursor(ch, [], NodePath(nodes, ch))
      case None => c.(overflow := [MarkOf(x)])
  }

  /** The cursor for a sequence of open scopes. */
  function Track(nodes: seq<Node>, scopes: seq<Scope>): (r: Cursor)
    requires TrieValid(nodes)
    ensures CursorValid(nodes, r)
    decreases |scopes|
  {
    if scopes == [] then Cursor(0, [], [])
    else Enter(nodes, Track(nodes, DropLast(scopes)), Last(scopes))
  }

  /** The scopes after a value completes: a pending key is closed with it. */
  function Close(scopes: seq<Scope>): seq<Scope> {
    if scopes != [] && Last(scopes).KeyScope? then DropLast(scopes) else scopes
  }

  lemma TrackPush(nodes: seq<Node>, scopes: seq<Scope>, x: Scope)
    requires TrieValid(nodes)
    ensures Track(nodes, scopes + [x]) == Enter(nodes, Track(nodes, scopes), x)
  {
    assert DropLast(scopes + [x]) == scopes;
  }

  /** The markers of a sequence of scopes, one each, in order. */
  function Marks(scopes: seq<Scope>): (r: seq<Mark>)
    ensures |r| == |scopes|
    decreases |scopes|
  {
    if scopes == [] then [] else Marks(DropLast(scopes)) + [MarkOf(Last(scopes))]
  }

  /** `o` holds the markers of the last `|o|` scopes, in order. */
  predicate MarksSuffix(o: seq<Mark>, scopes: seq<Scope>) {
    |o| <= |scopes| && o == Marks(scopes[|scopes| - |o|..])
  }

  /** The pending markers are those of the innermost scopes, one each, and every
      scope outside them was matched in the trie. */
  lemma {:induction false} OverflowIsUnmatchedScopes(nodes: seq<Node>, scopes: seq<Scope>)
    requires TrieValid(nodes)
    ensures MarksSuffix(Track(nodes, scopes).overflow, scopes)
    decreases |scopes|
  {
    if scopes != [] {
      OverflowIsUnmatchedScopes(nodes, DropLast(scopes));
      TrackOverflow(nodes, scopes);
      OverflowStep(scopes, Track(nodes, DropLast(scopes)).overflow, Track(nodes, scopes).overflow);
    } else {
      assert scopes[0..] == [];
    }
  }

  /** One more scope: its marker joins the pending suffix, or nothing is pending. */
  lemma OverflowStep(scopes: seq<Scope>, o0: seq<Mark>, o: seq<Mark>)
    requires scopes != [] && MarksSuffix(o0, DropLast(scopes))
    requires o == [] || o == o0 + [MarkOf(Last(scopes))]
    ensures MarksSuffix(o, scopes)
  {
    if o == [] {
      assert scopes[|scopes|..] == [];
    } else {
      MarksOfSuffix(scopes, |o0|);
    }
  }

  /** Entering a scope either matches it, leaving nothing pending, or adds its
      marker to the pending ones. */
  lemma TrackOverflow(nodes: seq<Node>, scopes: seq<Scope>)
    requires TrieValid(nodes) && scopes != []
    ensures var o := Track(nodes, scopes).overflow;
      o == [] || o == Track(nodes, DropLast(scopes)).overflow + [MarkOf(Last(scopes))]
  {
  }

  /** Extending the markers of a suffix by the markers of the next scope. */
  lemma MarksOfSuffix(scopes: seq<Scope>, k: nat)
    requires k < |scopes|
    ensures Marks(DropLast(scopes)[|scopes| - 1 - k..]) + [MarkOf(Last(scopes))] == Marks(scopes[|scopes| - 1 - k..])
  {
    var tail := scopes[|scopes| - 1 - k..];
    assert DropLast(tail) == DropLast(scopes)[|scopes| - 1 - k..];
  }

  /** Nothing is pending, and the cursor stands on a node the innermost scope
      names below the cursor of the outer ones. */
  lemma TrackMatched(nodes: seq<Node>, scopes: seq<Scope>)
    requires TrieValid(nodes) && scopes != [] && Track(nodes, scopes).overflow == []
    ensures Track(nodes, DropLast(scopes)).overflow == []
    ensures nodes[Track(nodes, scopes).pos].parent == Some(Track(nodes, DropLast(scopes)).pos)
    ensures Track(nodes, DropLast(scopes)).pos < Track(nodes, scopes).pos
    ensures Fits(nodes[Track(nodes, scopes).pos], KindOf(Last(scopes)), KeyOf(Last(scopes)))
  {
  }

  /** Something is pending: the cursor is where the outer scopes left it and
      the innermost marker is the innermost scope's. */
  lemma TrackPending(nodes: seq<Node>, scopes: seq<Scope>)
    requires TrieValid(nodes) && scopes != [] && Track(nodes, scopes).overflow != []
    ensures Track(nodes, scopes).pos == Track(nodes, DropLast(scopes)).pos
    ensures Track(nodes, scopes).path == Track(nodes, DropLast(scopes)).path
    ensures Last(Track(nodes, scopes).overflow) == MarkOf(Last(scopes))
    ensures DropLast(Track(nodes, scopes).overflow) == Track(nodes, DropLast(scopes)).overflow
  {
  }

  /** A value may come where the innermost scope is not an object. */
  predicate ValueScope(scopes: seq<Scope>) {
    scopes == [] || !Last(scopes).ObjectScope?
  }

  /** The step back after a completed value closes a matched key. */
  lemma StepBackCloses(nodes: seq<Node>, scopes: seq<Scope>)
    requires TrieValid(nodes) && Track(nodes, scopes).overflow == []
    ensures StepBack(nodes, Track(nodes, scopes)) == Track(nodes, Close(scopes))
  {
    var c := Track(nodes, scopes);
    if scopes != [] {
      TrackMatched(nodes, scopes);
      var c0 := Track(nodes, DropLast(scopes));
      var before := NodePath(nodes, c0.pos);
      assert c.path == before + Repr(nodes[c.pos].kind, nodes[c.pos].key, before);
      if Last(scopes).KeyScope? {
        assert c.path[..|c.path| - |nodes[c.pos].key|] == before;
      }
    }
  }

  /** A collection start moves from the cursor of the scopes to the cursor of
      the scopes with the collection opened; its assertion holds. */
  lemma StartTracks(nodes: seq<Node>, scopes: seq<Scope>, t: CollectionTraits)
    requires TrieValid(nodes) && IsTraits(t) && ValueScope(scopes)
    ensures ValueAllowed(nodes, Track(nodes, scopes))
    ensures StartStep(nodes, Track(nodes, scopes), t) == Track(nodes, scopes + [ScopeOf(t)])
  {
    TrackPush(nodes, scopes, ScopeOf(t));
    var c := Track(nodes, scopes);
    if scopes != [] {
      if c.overflow == [] {
        TrackMatched(nodes, scopes);
      } else {
        TrackPending(nodes, scopes);
      }
    }
    match ChildFor(nodes, c.pos, t.nodeType, [])
    case None =>
    case Some(ch) =>
      assert NodePath(nodes, ch) == c.path + Repr(t.nodeType, [], c.path);
  }

  /** A key moves from the cursor of the scopes to the cursor with the key
      opened; its assertion holds. */
  lemma KeyTracks(nodes: seq<Node>, scopes: seq<Scope>, key: seq<byte>)
    requires TrieValid(nodes) && scopes != [] && Last(scopes) == ObjectScope
    ensures KeyAllowed(nodes, Track(nodes, scopes))
    ensures KeyStep(nodes, Track(nodes, scopes), key) == Track(nodes, scopes + [KeyScope(key)])
  {
    TrackPush(nodes, scopes, KeyScope(key));
    if Track(nodes, scopes).overflow == [] {
      TrackMatched(nodes, scopes);
    } else {
      TrackPending(nodes, scopes);
    }
  }

  /** A primitive value moves to the cursor of the scopes with a pending key
      closed, and runs the callbacks of the cursor's node exactly when nothing
      is pending. */
  lemma PrimitiveTracks(nodes: seq<Node>, scopes: seq<Scope>, kind: ValueType, start: nat, length: nat)
    requires TrieValid(nodes) && ValueScope(scopes)
    ensures ValueAllowed(nodes, Track(nodes, scopes))
    ensures PrimitiveStep(nodes, Track(nodes, scopes), kind, start, length)
      == (Track(nodes, Close(scopes)),
          if Track(nodes, scopes).overflow == [] then Fired(nodes, Track(nodes, scopes), kind, start, length) else [])
  {
    var c := Track(nodes, scopes);
    if c.overflow == [] {
      if scopes != [] { TrackMatched(nodes, scopes); }
      StepBackCloses(nodes, scopes);
    } else {
      TrackPending(nodes, scopes);
    }
  }

  /** A collection end closes the innermost scope and then a pending key, and
      runs the callbacks of the node the collection was matched at exactly when
      nothing is pending outside it; its assertion holds. */
  lemma EndTracks(nodes: seq<Node>, scopes: seq<Scope>, t: CollectionTraits, start: nat, length: nat)
    requires TrieValid(nodes) && IsTraits(t) && scopes != [] && Last(scopes) == ScopeOf(t)
    ensures EndAllowed(nodes, Track(nodes, scopes), t)
    ensures
      var outer := DropLast(scopes);
      EndStep(nodes, Track(nodes, scopes), t, start, length)
      == (Track(nodes, Close(outer)),
          if Track(nodes, outer).overflow == [] then Fired(nodes, Track(nodes, outer), t.valueType, start, length) else [])
  {
    if Track(nodes, scopes).overflow == [] {
      EndTracksMatched(nodes, scopes, t, start, length);
    } else {
      EndTracksPending(nodes, scopes, t, start, length);
    }
  }

  /** EndTracks when the collection was matched in the trie. */
  lemma EndTracksMatched(nodes: seq<Node>, scopes: seq<Scope>, t: CollectionTraits, start: nat, length: nat)
    requires TrieValid(nodes) && IsTraits(t) && scopes != [] && Last(scopes) == ScopeOf(t)
    requires Track(nodes, scopes).overflow == []
    ensures EndAllowed(nodes, Track(nodes, scopes), t)
    ensures
      var outer := DropLast(scopes);
      EndStep(nodes, Track(nodes, scopes), t, start, length)
      == (Track(nodes, Close(outer)),
          if Track(nodes, outer).overflow == [] then Fired(nodes, Track(nodes, outer), t.valueType, start, length) else [])
  {
    var outer := DropLast(scopes);
    TrackMatched(nodes, scopes);
    ClosePath(nodes, Track(nodes, scopes), t);
    StepBackCloses(nodes, outer);
  }

  /** EndTracks when the collection only has a pending marker. */
  lemma EndTracksPending(nodes: seq<Node>, scopes: seq<Scope>, t: CollectionTraits, start: nat, length: nat)
    requires TrieValid(nodes) && IsTraits(t) && scopes != [] && Last(scopes) == ScopeOf(t)
    requires Track(nodes, scopes).overflow != []
    ensures EndAllowed(nodes, Track(nodes, scopes), t)
    ensures
      var outer := DropLast(scopes);
      EndStep(nodes, Track(nodes, scopes), t, start, length)
      == (Track(nodes, Close(outer)),
          if Track(nodes, outer).overflow == [] then Fired(nodes, Track(nodes, outer), t.valueType, start, length) else [])
  {
    var outer := DropLast(scopes);
    TrackPending(nodes, scopes);
    if Track(nodes, outer).overflow == [] {
      StepBackCloses(nodes, outer);
    } else {
      TrackPending(nodes, outer);
    }
  }

  // ---------------------------------------------------------------------------
  // Whole event streams
  // ---------------------------------------------------------------------------

  function OpenOf(x: Scope): Open {
    match x
    case ObjectScope => InObject
    case ArrayScope => InArray
    case KeyScope(_) => AtKey
  }

  /** The scopes without their keys: the nesting of the event protocol. */
  function Forget(scopes: seq<Scope>): (r: seq<Open>)
    ensures |r| == |scopes|
    ensures forall k :: 0 <= k < |scopes| ==> r[k] == OpenOf(scopes[k])
    decreases |scopes|
  {
    if scopes == [] then [] else Forget(DropLast(scopes)) + [OpenOf(Last(scopes))]
  }

  /** One event handed to the dispatcher, as `JsonParser` calls its visitor on
      the input `s`: the new cursor and the callbacks run, or `None` where the
      handler's assertion fails. */
  function Deliver(nodes: seq<Node>, c: Cursor, s: seq<byte>, e: Event): (r: Option<(Cursor, seq<Call>)>)
    requires CursorValid(nodes, c)
    ensures r.Some? ==> CursorValid(nodes, r.value.0)
  {
    match e
    case ObjectStart(_) =>
      if ValueAllowed(nodes, c) then Some((StartStep(nodes, c, OBJECT_TRAITS), [])) else None
    case ArrayStart(_) =>
      if ValueAllowed(nodes, c) then Some((StartStep(nodes, c, ARRAY_TRAITS), [])) else None
    case ObjectKey(start, length) =>
      if KeyAllowed(nodes, c) then Some((KeyStep(nodes, c, Span(s, start, length)), [])) else None
    case PrimitiveValue(kind, start, length) =>
      if ValueAllowed(nodes, c) then Some(PrimitiveStep(nodes, c, kind, start, length)) else None
    case ObjectEnd(start, length) =>
      if EndAllowed(nodes, c, OBJECT_TRAITS) then Some(EndStep(nodes, c, OBJECT_TRAITS, start, length)) else None
    case ArrayEnd(start, length) =>
      if EndAllowed(nodes, c, ARRAY_TRAITS) then Some(EndStep(nodes, c, ARRAY_TRAITS, start, length)) else None
  }

  /** A sequence of events handed over one by one: the last cursor and all the
      callbacks run, in order. */
  function DeliverAll(nodes: seq<Node>, c: Cursor, s: seq<byte>, evs: seq<Event>): (r: Option<(Cursor, seq<Call>)>)
    requires CursorValid(nodes, c)
    decreases |evs|
  {
    if evs == [] then Some((c, []))
    else
      match Deliver(nodes, c, s, evs[0])
      case None => None
      case Some((c1, k1)) =>
        match DeliverAll(nodes, c1, s, evs[1..])
        case None => None
        case Some((c2, k2)) => Some((c2, k1 + k2))
  }

  /** The scopes after an event. */
  function After(scopes: seq<Scope>, s: seq<byte>, e: Event): seq<Scope> {
    match e
    case ObjectStart(_) => scopes + [ObjectScope]
    case ArrayStart(_) => scopes + [ArrayScope]
    case ObjectKey(start, length) => scopes + [KeyScope(Span(s, start, length))]
    case PrimitiveValue(_, _, _) => Close(scopes)
    case ObjectEnd(_, _) => if scopes == [] then [] else Close(DropLast(scopes))
    case ArrayEnd(_, _) => if scopes == [] then [] else Close(DropLast(scopes))
  }

  lemma ForgetPush(scopes: seq<Scope>, x: Scope)
    ensures Forget(scopes + [x]) == Forget(scopes) + [OpenOf(x)]
  {
    assert DropLast(scopes + [x]) == scopes;
  }

  lemma ForgetDropLast(scopes: seq<Scope>)
    requires scopes != []
    ensures Forget(DropLast(scopes)) == DropLast(Forget(scopes))
  {
  }

  /** Closing a completed value's scopes is the protocol's `Completed`. */
  lemma ForgetClose(scopes: seq<Scope>, n: Nesting)
    requires Forget(scopes) == n.open
    ensures Forget(Close(scopes)) == Completed(n).open
  {
    if scopes != [] {
      ForgetDropLast(scopes);
    }
  }

  /** Every event the protocol accepts is handled with its assertion holding,
      and moves the cursor from that of the scopes before it to that of the
      scopes after it. */
  lemma DeliverTracks(nodes: seq<Node>, scopes: seq<Scope>, n: Nesting, s: seq<byte>, e: Event)
    requires TrieValid(nodes) && Forget(scopes) == n.open && Accept(n, e).Some?
    ensures Deliver(nodes, Track(nodes, scopes), s, e).Some?
    ensures Deliver(nodes, Track(nodes, scopes), s, e).value.0 == Track(nodes, After(scopes, s, e))
    ensures Forget(After(scopes, s, e)) == Accept(n, e).value.open
  {
    if e.ObjectStart? || e.ArrayStart? {
      DeliverStartTracks(nodes, scopes, n, s, e);
    } else if e.ObjectKey? {
      DeliverKeyTracks(nodes, scopes, n, s, e);
    } else if e.PrimitiveValue? {
      DeliverPrimitiveTracks(nodes, scopes, n, s, e);
    } else {
      DeliverEndTracks(nodes, scopes, n, s, e);
    }
  }

  /** `ExpectsValue` of the protocol is `ValueScope` of the dispatcher. */
  lemma ExpectsValueScope(scopes: seq<Scope>, n: Nesting)
    requires Forget(scopes) == n.open && ExpectsValue(n)
    ensures ValueScope(scopes)
  {
    if scopes != [] {
      assert OpenOf(Last(scopes)) == Forget(scopes)[|scopes| - 1];
    }
  }

  lemma DeliverStartTracks(nodes: seq<Node>, scopes: seq<Scope>, n: Nesting, s: seq<byte>, e: Event)
    requires TrieValid(nodes) && Forget(scopes) == n.open && Accept(n, e).Some?
    requires e.ObjectStart? || e.ArrayStart?
    ensures Deliver(nodes, Track(nodes, scopes), s, e).Some?
    ensures Deliver(nodes, Track(nodes, scopes), s, e).value.0 == Track(nodes, After(scopes, s, e))
    ensures Forget(After(scopes, s, e)) == Accept(n, e).value.open
  {
    ExpectsValueScope(scopes, n);
    if e.ObjectStart? {
      StartTracks(nodes, scopes, OBJECT_TRAITS);
      ForgetPush(scopes, ObjectScope);
    } else {
      StartTracks(nodes, scopes, ARRAY_TRAITS);
      ForgetPush(scopes, ArrayScope);
    }
  }

  lemma DeliverKeyTracks(nodes: seq<Node>, scopes: seq<Scope>, n: Nesting, s: seq<byte>, e: Event)
    requires TrieValid(nodes) && Forget(scopes) == n.open && Accept(n, e).Some?
    requires e.ObjectKey?
    ensures Deliver(nodes, Track(nodes, scopes), s, e).Some?
    ensures Deliver(nodes, Track(nodes, scopes), s, e).value.0 == Track(nodes, After(scopes, s, e))
    ensures Forget(After(scopes, s, e)) == Accept(n, e).value.open
  {
    assert OpenOf(Last(scopes)) == Forget(scopes)[|scopes| - 1];
    var key := Span(s, e.start, e.length);
    KeyTracks(nodes, scopes, key);
    ForgetPush(scopes, KeyScope(key));
  }

  lemma DeliverPrimitiveTracks(nodes: seq<Node>, scopes: seq<Scope>, n: Nesting, s: seq<byte>, e: Event)
    requires TrieValid(nodes) && Forget(scopes) == n.open && Accept(n, e).Some?
    requires e.PrimitiveValue?
    ensures Deliver(nodes, Track(nodes, scopes), s, e).Some?
    ensures Deliver(nodes, Track(nodes, scopes), s, e).value.0 == Track(nodes, After(scopes, s, e))
    ensures Forget(After(scopes, s, e)) == Accept(n, e).value.open
  {
    ExpectsValueScope(scopes, n);
    PrimitiveTracks(nodes, scopes, e.kind, e.start, e.length);
    ForgetClose(scopes, n);
  }

  lemma DeliverEndTracks(nodes: seq<Node>, scopes: seq<Scope>, n: Nesting, s: seq<byte>, e: Event)
    requires TrieValid(nodes) && Forget(scopes) == n.open && Accept(n, e).Some?
    requires e.ObjectEnd? || e.ArrayEnd?
    ensures Deliver(nodes, Track(nodes, scopes), s, e).Some?
    ensures Deliver(nodes, Track(nodes, scopes), s, e).value.0 == Track(nodes, After(scopes, s, e))
    ensures Forget(After(scopes, s, e)) == Accept(n, e).value.open
  {
    assert OpenOf(Last(scopes)) == Forget(scopes)[|scopes| - 1];
    ForgetDropLast(scopes);
    ForgetClose(DropLast(scopes), Nesting(DropLast(n.open), n.done));
    if e.ObjectEnd? {
      EndTracks(nodes, scopes, OBJECT_TRAITS, e.start, e.length);
    } else {
      EndTracks(nodes, scopes, ARRAY_TRAITS, e.start, e.length);
    }
  }

  /** A whole sequence of events the protocol accepts is handled, and leaves
      the cursor of the scopes open at its end. */
  lemma {:induction false} DeliverAllTracks(nodes: seq<Node>, scopes: seq<Scope>, n: Nesting, s: seq<byte>, evs: seq<Event>)
    returns (final: seq<Scope>)
    requires TrieValid(nodes) && Forget(scopes) == n.open && Walk(n, evs).Some?
    ensures DeliverAll(nodes, Track(nodes, scopes), s, evs).Some?
    ensures DeliverAll(nodes, Track(nodes, scopes), s, evs).value.0 == Track(nodes, final)
    ensures Forget(final) == Walk(n, evs).value.open
    decreases |evs|
  {
    if evs == [] {
      final := scopes;
    } else {
      DeliverTracks(nodes, scopes, n, s, evs[0]);
      final := DeliverAllTracks(nodes, After(scopes, s, evs[0]), Accept(n, evs[0]).value, s, evs[1..]);
    }
  }

  /** After the events of one whole root value the cursor is back at the root
      with nothing pending and an empty path, as after construction: the
      dispatcher can serve the next parse. */
  lemma ReadyAfterRootValue(nodes: seq<Node>, s: seq<byte>, evs: seq<Event>)
    requires TrieValid(nodes) && OneValue(evs)
    ensures DeliverAll(nodes, Cursor(0, [], []), s, evs).Some?
    ensures DeliverAll(nodes, Cursor(0, [], []), s, evs).value.0 == Cursor(0, [], [])
  {
    var final := DeliverAllTracks(nodes, [], START, s, evs);
    assert |final| == |FINISHED.open| == 0;
  }

  /** `JsonParser<JsonCallbackVisitor>`: every successful parse leaves the
      dispatcher ready for the next one. */
  lemma ReadyAfterParse(nodes: seq<Node>, s: seq<byte>, depthLimit: nat)
    requires TrieValid(nodes) && ParseReference(s, depthLimit).ok
    ensures DeliverAll(nodes, Cursor(0, [], []), s, ParseReference(s, depthLimit).events).Some?
    ensures DeliverAll(nodes, Cursor(0, [], []), s, ParseReference(s, depthLimit).events).value.0 == Cursor(0, [], [])
  {
    ParseProtocol(s, depthLimit);
    ReadyAfterRootValue(nodes, s, ParseReference(s, depthLimit).events);
  }

  // ---------------------------------------------------------------------------
  // Registration meets dispatch
  // ---------------------------------------------------------------------------

  /** The scopes open at a value whose path is `segs`: an object and its key
      for a key segment, an array for an array segment, outermost first. */
  function PathScopes(segs: seq<Segment>): (r: seq<Scope>)
    ensures r == [] || !Last(r).ObjectScope?
    decreases |segs|
  {
    if segs == [] then []
    else if segs[0].IsObject() then [ObjectScope, KeyScope(segs[0].key)] + PathScopes(segs[1..])
    else [ArrayScope] + PathScopes(segs[1..])
  }

  /** Entering scopes one after the other, outermost first. */
  function EnterAll(nodes: seq<Node>, c: Cursor, xs: seq<Scope>): (r: Cursor)
    requires CursorValid(nodes, c)
    ensures CursorValid(nodes, r)
    decreases |xs|
  {
    if xs == [] then c else EnterAll(nodes, Enter(nodes, c, xs[0]), xs[1..])
  }

  /** Tracking more scopes enters them from the cursor of the outer ones. */
  lemma {:induction false} TrackAppend(nodes: seq<Node>, a: seq<Scope>, b: seq<Scope>)
    requires TrieValid(nodes)
    ensures Track(nodes, a + b) == EnterAll(nodes, Track(nodes, a), b)
    decreases |b|
  {
    if b == [] {
      assert a + b == a;
    } else {
      TrackPush(nodes, a, b[0]);
      assert a + b == (a + [b[0]]) + b[1..];
      TrackAppend(nodes, a + [b[0]], b[1..]);
    }
  }

  /** Once a marker is pending, entering more scopes keeps one pending. */
  lemma {:induction false} PendingStays(nodes: seq<Node>, c: Cursor, xs: seq<Scope>)
    requires CursorValid(nodes, c) && c.overflow != []
    ensures EnterAll(nodes, c, xs).overflow != []
    decreases |xs|
  {
    if xs != [] {
      PendingStays(nodes, Enter(nodes, c, xs[0]), xs[1..]);
    }
  }

  /** The path text as the callbacks get it: "." for the root. */
  function Dotted(path: seq<byte>): seq<byte> {
    if path == [] then [DOT] else path
  }

  /** From a matched cursor, entering the scopes of `segs` reaches the node
      Lookup finds, with its path text extended by the spelling of `segs`; when
      Lookup finds none, a marker is left pending. */
  lemma {:induction false} LookupEnters(nodes: seq<Node>, c: Cursor, segs: seq<Segment>)
    requires CursorValid(nodes, c) && c.overflow == []
    ensures Lookup(nodes, c.pos, segs).Some? ==>
      var t := Lookup(nodes, c.pos, segs).value;
      && EnterAll(nodes, c, PathScopes(segs)) == Cursor(t, [], NodePath(nodes, t))
      && Dotted(NodePath(nodes, t)) == Dotted(c.path) + Body(segs, c.path == [])
    ensures Lookup(nodes, c.pos, segs).None? ==> EnterAll(nodes, c, PathScopes(segs)).overflow != []
    decreases |segs|, 1
  {
    if segs == [] {
      assert Dotted(c.path) + [] == Dotted(c.path);
    } else if segs[0].IsObject() {
      LookupEntersKey(nodes, c, segs);
    } else {
      LookupEntersArray(nodes, c, segs);
    }
  }

  /** LookupEnters for a key segment first. */
  lemma {:induction false} LookupEntersKey(nodes: seq<Node>, c: Cursor, segs: seq<Segment>)
    requires CursorValid(nodes, c) && c.overflow == []
    requires segs != [] && segs[0].IsObject()
    ensures Lookup(nodes, c.pos, segs).Some? ==>
      var t := Lookup(nodes, c.pos, segs).value;
      && EnterAll(nodes, c, PathScopes(segs)) == Cursor(t, [], NodePath(nodes, t))
      && Dotted(NodePath(nodes, t)) == Dotted(c.path) + Body(segs, c.path == [])
    ensures Lookup(nodes, c.pos, segs).None? ==> EnterAll(nodes, c, PathScopes(segs)).overflow != []
    decreases |segs|, 0
  {
    var c2 := KeyStepEnters(nodes, c, segs);
    if c2.overflow != [] {
      PendingStays(nodes, c2, PathScopes(segs[1..]));
    } else {
      LookupEnters(nodes, c2, segs[1..]);
      DottedBody(c.path, c2.path, segs, SegmentText(segs[0], c.path == []));
    }
  }

  /** The object and key scopes of a key segment: where they lead, and the
      step of Lookup they match. */
  lemma KeyStepEnters(nodes: seq<Node>, c: Cursor, segs: seq<Segment>) returns (c2: Cursor)
    requires CursorValid(nodes, c) && c.overflow == []
    requires segs != [] && segs[0].IsObject()
    ensures CursorValid(nodes, c2)
    ensures EnterAll(nodes, c, PathScopes(segs)) == EnterAll(nodes, c2, PathScopes(segs[1..]))
    ensures c2.overflow != [] ==> Lookup(nodes, c.pos, segs).None?
    ensures c2.overflow == [] ==>
      && Lookup(nodes, c.pos, segs) == Lookup(nodes, c2.pos, segs[1..])
      && c2.path == Dotted(c.path) + SegmentText(segs[0], c.path == [])
  {
    var key := segs[0].key;
    var rest := PathScopes(segs[1..]);
    var c1 := Enter(nodes, c, ObjectScope);
    c2 := Enter(nodes, c1, KeyScope(key));
    EnterTwo(nodes, c, ObjectScope, KeyScope(key), rest);
    if c1.overflow != [] {
      assert FindChild(nodes, nodes[c.pos].children, ObjectNode, []).None?;
    } else if c2.overflow != [] {
      assert FindChild(nodes, nodes[c1.pos].children, KeyNode, key).None?;
    } else {
      ObjectKeyPath(nodes, c, c1, c2, key);
      KeyText(c.path, segs[0]);
    }
  }

  /** A key segment's text after a path text. */
  lemma KeyText(p: seq<byte>, seg: Segment)
    requires seg.IsObject()
    ensures p + [DOT] + seg.key == Dotted(p) + SegmentText(seg, p == [])
  {
    if p == [] {
      assert SegmentText(seg, true) == seg.key;
    } else {
      assert SegmentText(seg, false) == [DOT] + seg.key;
    }
  }

  /** Entering two scopes, then the rest. */
  lemma EnterTwo(nodes: seq<Node>, c: Cursor, x: Scope, y: Scope, rest: seq<Scope>)
    requires CursorValid(nodes, c)
    ensures EnterAll(nodes, c, [x, y] + rest) == EnterAll(nodes, Enter(nodes, Enter(nodes, c, x), y), rest)
  {
    assert ([x, y] + rest)[1..] == [y] + rest;
    assert ([y] + rest)[1..] == rest;
  }

  /** LookupEnters for an array segment first. */
  lemma {:induction false} LookupEntersArray(nodes: seq<Node>, c: Cursor, segs: seq<Segment>)
    requires CursorValid(nodes, c) && c.overflow == []
    requires segs != [] && !segs[0].IsObject()
    ensures Lookup(nodes, c.pos, segs).Some? ==>
      var t := Lookup(nodes, c.pos, segs).value;
      && EnterAll(nodes, c, PathScopes(segs)) == Cursor(t, [], NodePath(nodes, t))
      && Dotted(NodePath(nodes, t)) == Dotted(c.path) + Body(segs, c.path == [])
    ensures Lookup(nodes, c.pos, segs).None? ==> EnterAll(nodes, c, PathScopes(segs)).overflow != []
    decreases |segs|, 0
  {
    var rest := PathScopes(segs[1..]);
    assert PathScopes(segs) == [ArrayScope] + rest;
    var c1 := Enter(nodes, c, ArrayScope);
    assert EnterAll(nodes, c, PathScopes(segs)) == EnterAll(nodes, c1, rest);
    if c1.overflow != [] {
      assert FindChild(nodes, nodes[c.pos].children, ArrayNode, []).None?;
      PendingStays(nodes, c1, rest);
    } else {
      ArrayPath(nodes, c, c1);
      assert Lookup(nodes, c.pos, segs) == Lookup(nodes, c1.pos, segs[1..]);
      LookupEnters(nodes, c1, segs[1..]);
      DottedBody(c.path, c1.path, segs, SegmentText(segs[0], c.path == []));
    }
  }

  /** Entering an object and then one of its keys: the key node Lookup's step
      finds, with "." and the key added to the path text. */
  lemma ObjectKeyPath(nodes: seq<Node>, c: Cursor, c1: Cursor, c2: Cursor, key: seq<byte>)
    requires CursorValid(nodes, c) && c.overflow == [] && key != []
    requires c1 == Enter(nodes, c, ObjectScope) && c1.overflow == []
    requires c2 == Enter(nodes, c1, KeyScope(key)) && c2.overflow == []
    ensures FindChild(nodes, nodes[c.pos].children, ObjectNode, []) == Some(c1.pos)
    ensures FindChild(nodes, nodes[c1.pos].children, KeyNode, key) == Some(c2.pos)
    ensures c2.path == c.path + [DOT] + key
  {
  }

  /** Entering an array: the array node Lookup's step finds, with "[]" added
      to the path text (".[]" at the root). */
  lemma ArrayPath(nodes: seq<Node>, c: Cursor, c1: Cursor)
    requires CursorValid(nodes, c) && c.overflow == []
    requires c1 == Enter(nodes, c, ArrayScope) && c1.overflow == []
    ensures FindChild(nodes, nodes[c.pos].children, ArrayNode, []) == Some(c1.pos)
    ensures c1.path == Dotted(c.path) + [LBRACKET, RBRACKET]
  {
  }

  /** The path text after one segment, then the rest. */
  lemma DottedBody(p: seq<byte>, p1: seq<byte>, segs: seq<Segment>, text: seq<byte>)
    requires segs != [] && text == SegmentText(segs[0], p == [])
    requires p1 == Dotted(p) + text && text != []
    ensures Dotted(p1) + Body(segs[1..], p1 == []) == Dotted(p) + Body(segs, p == [])
  {
    assert Body(segs, p == []) == text + Body(segs[1..], false);
  }

  /** A value whose path is `segs` finds the cursor on the node Lookup gives
      for `segs`, with nothing pending, and its callbacks get the canonical
      spelling of `segs`; a value whose path the trie lacks finds a marker
      pending, so no callback runs for it. */
  lemma PathScopesTrack(nodes: seq<Node>, segs: seq<Segment>)
    requires TrieValid(nodes)
    ensures Lookup(nodes, 0, segs).Some? ==>
      var t := Lookup(nodes, 0, segs).value;
      && Track(nodes, PathScopes(segs)) == Cursor(t, [], NodePath(nodes, t))
      && Dotted(NodePath(nodes, t)) == Render(segs)
    ensures Lookup(nodes, 0, segs).None? ==> Track(nodes, PathScopes(segs)).overflow != []
  {
    TrackAppend(nodes, [], PathScopes(segs));
    assert [] + PathScopes(segs) == PathScopes(segs);
    LookupEnters(nodes, Cursor(0, [], []), segs);
  }

  /** `register_callback` then a primitive value at the registered path: the
      calls are those the path had before (none if it was new) followed by the
      new callback, each given the canonical text of the path. */
  lemma RegisteredCallbackRuns(nodes: seq<Node>, segs: seq<Segment>, id: nat,
                               kind: ValueType, start: nat, length: nat)
    requires TrieValid(nodes)
    ensures
      var r := Register(nodes, segs, id);
      var c := Track(r, PathScopes(segs));
      var before := Track(nodes, PathScopes(segs));
      && c.overflow == []
      && PrimitiveStep(r, c, kind, start, length).1
         == (if before.overflow == [] then Fired(nodes, before, kind, start, length) else [])
            + [Call(id, kind, Render(segs), start, length)]
  {
    var r := Register(nodes, segs, id);
    RegisterAppends(nodes, segs, id);
    var t := Lookup(r, 0, segs).value;
    PathScopesTrack(r, segs);
    PathScopesTrack(nodes, segs);
    var c := Track(r, PathScopes(segs));
    var before := Track(nodes, PathScopes(segs));
    PrimitiveTracks(r, PathScopes(segs), kind, start, length);
    var cbs := if Lookup(nodes, 0, segs).Some? then nodes[t].callbacks else [];
    var a := if before.overflow == [] then Fired(nodes, before, kind, start, length) else [];
    CallsAppend(cbs, id, kind, Render(segs), start, length, a, Fired(r, c, kind, start, length));
  }

  /** The calls for callbacks `cbs + [id]` are the calls for `cbs`, then one
      for `id`. */
  lemma CallsAppend(cbs: seq<nat>, id: nat, kind: ValueType, p: seq<byte>, start: nat, length: nat,
                    a: seq<Call>, b: seq<Call>)
    requires |a| == |cbs| && forall k :: 0 <= k < |a| ==> a[k] == Call(cbs[k], kind, p, start, length)
    requires |b| == |cbs| + 1 && forall k :: 0 <= k < |b| ==> b[k] == Call((cbs + [id])[k], kind, p, start, length)
    ensures b == a + [Call(id, kind, p, start, length)]
  {
  }
}
