/** The callback sequences test of the dispatcher worked through the model:
    the seven paths the test registers, and the callbacks run for the events
    the parser reports on three of its texts. Letters are written as bytes
    (0x61 is 'a', 0x62 'b', 0x63 'c', 0x65 'e', 0x66 'f', 0x67 'g'). */
module JsonCallbackVisitorExamples {
  import opened Bytes
  import opened Exception
  import opened JsonEvents
  import opened JsonValuePath
  import opened JsonCallbackVisitor
  import opened JsonCallbackVisitorProperties

  const ABC: seq<byte> := [0x61, 0x62, 0x63]
  const EFG: seq<byte> := [0x65, 0x66, 0x67]

  /** The trie after registering, with ids 1 to 7, the paths ".", ".abc",
      ".[]", ".abc.efg", ".abc[]", ".[].abc" and ".[][]". */
  const TEST_TRIE: seq<Node> := [
    Node(KeyNode, [1], None, [1, 3], []),
    Node(ObjectNode, [], Some(0), [2], []),
    Node(KeyNode, [2], Some(1), [4, 6], ABC),
    Node(ArrayNode, [3], Some(0), [7, 9], []),
    Node(ObjectNode, [], Some(2), [5], []),
    Node(KeyNode, [4], Some(4), [], EFG),
    Node(ArrayNode, [5], Some(2), [], []),
    Node(ObjectNode, [], Some(3), [8], []),
    Node(KeyNode, [6], Some(7), [], ABC),
    Node(ArrayNode, [7], Some(3), [], [])
  ]

  // The trie after each registration, as `register_callback` grows it.
  const TRIE_1: seq<Node> := [Node(KeyNode, [1], None, [], [])]
  const TRIE_2: seq<Node> := [
    Node(KeyNode, [1], None, [1], []),
    Node(ObjectNode, [], Some(0), [2], []),
    Node(KeyNode, [2], Some(1), [], ABC)
  ]
  const TRIE_3: seq<Node> := [
    Node(KeyNode, [1], None, [1, 3], []),
    Node(ObjectNode, [], Some(0), [2], []),
    Node(KeyNode, [2], Some(1), [], ABC),
    Node(ArrayNode, [3], Some(0), [], [])
  ]
  const TRIE_4: seq<Node> := TRIE_3[2 := Node(KeyNode, [2], Some(1), [4], ABC)] + [
    Node(ObjectNode, [], Some(2), [5], []),
    Node(KeyNode, [4], Some(4), [], EFG)
  ]
  const TRIE_5: seq<Node> := TRIE_4[2 := Node(KeyNode, [2], Some(1), [4, 6], ABC)] + [
    Node(ArrayNode, [5], Some(2), [], [])
  ]
  const TRIE_6: seq<Node> := TRIE_5[3 := Node(ArrayNode, [3], Some(0), [7], [])] + [
    Node(ObjectNode, [], Some(3), [8], []),
    Node(KeyNode, [6], Some(7), [], ABC)
  ]

  /** `register_callback` appends the id to the node its walk ends at. */
  lemma RegisterStep(nodes: seq<Node>, segs: seq<Segment>, id: nat, n: seq<Node>, t: nat)
    requires TrieValid(nodes) && Descend(nodes, 0, segs) == (n, t)
    ensures t < |n| && Register(nodes, segs, id) == n[t := n[t].(callbacks := n[t].callbacks + [id])]
  {
  }

  lemma ChildFound(nodes: seq<Node>, at: nat, kind: NodeType, key: seq<byte>, c: nat)
    requires at < |nodes| && FindChild(nodes, nodes[at].children, kind, key) == Some(c)
    ensures Child(nodes, at, kind, key) == (nodes, c)
  {
  }

  lemma ChildAdded(nodes: seq<Node>, at: nat, kind: NodeType, key: seq<byte>)
    requires at < |nodes| && FindChild(nodes, nodes[at].children, kind, key) == None
    ensures Child(nodes, at, kind, key) == (AddChild(nodes, at, kind, key), |nodes|)
    ensures AddChild(nodes, at, kind, key)[|nodes|] == Node(kind, [], Some(at), [], key)
    ensures AddChild(nodes, at, kind, key)[at].children == nodes[at].children + [|nodes|]
    ensures forall j :: 0 <= j < |nodes| && j != at ==> AddChild(nodes, at, kind, key)[j] == nodes[j]
    ensures |AddChild(nodes, at, kind, key)| == |nodes| + 1
  {
  }

  lemma RegisterRoot()
    ensures Register([ROOT], [], 1) == TRIE_1
  {
    var r := [ROOT];
    assert Descend(r, 0, []) == (r, 0);
    assert ROOT.callbacks + [1] == [1];
    assert r[0 := ROOT.(callbacks := [1])] == TRIE_1;
  }

  lemma RegisterAbc()
    requires TrieValid(TRIE_1)
    ensures Register(TRIE_1, [Segment(ABC)], 2) == TRIE_2
  {
    ChildAdded(TRIE_1, 0, ObjectNode, []);
    var a := AddChild(TRIE_1, 0, ObjectNode, []);
    ChildAdded(a, 1, KeyNode, ABC);
    var b := AddChild(a, 1, KeyNode, ABC);
    assert Descend(TRIE_1, 0, [Segment(ABC)]) == Descend(b, 2, []) == (b, 2);
    RegisterStep(TRIE_1, [Segment(ABC)], 2, b, 2);
    var r := Register(TRIE_1, [Segment(ABC)], 2);
    assert r[0] == TRIE_2[0] && r[1] == TRIE_2[1] && r[2] == TRIE_2[2];
  }

  lemma RegisterArray()
    requires TrieValid(TRIE_2)
    ensures Register(TRIE_2, [ARRAY_SEGMENT], 3) == TRIE_3
  {
    assert FindChild(TRIE_2, [1], ArrayNode, []) == None;
    ChildAdded(TRIE_2, 0, ArrayNode, []);
    var a := AddChild(TRIE_2, 0, ArrayNode, []);
    assert Descend(TRIE_2, 0, [ARRAY_SEGMENT]) == Descend(a, 3, []) == (a, 3);
    RegisterStep(TRIE_2, [ARRAY_SEGMENT], 3, a, 3);
    var r := Register(TRIE_2, [ARRAY_SEGMENT], 3);
    assert r[0] == TRIE_3[0] && r[1] == TRIE_3[1] && r[2] == TRIE_3[2] && r[3] == TRIE_3[3];
  }

  lemma DescendAbcEfg()
    ensures Descend(TRIE_3, 0, [Segment(ABC), Segment(EFG)])
         == (AddChild(AddChild(TRIE_3, 2, ObjectNode, []), 4, KeyNode, EFG), 5)
  {
    assert FindChild(TRIE_3, [1, 3], ObjectNode, []) == Some(1);
    ChildFound(TRIE_3, 0, ObjectNode, [], 1);
    assert FindChild(TRIE_3, [2], KeyNode, ABC) == Some(2);
    ChildFound(TRIE_3, 1, KeyNode, ABC, 2);
    ChildAdded(TRIE_3, 2, ObjectNode, []);
    var a := AddChild(TRIE_3, 2, ObjectNode, []);
    ChildAdded(a, 4, KeyNode, EFG);
    var b := AddChild(a, 4, KeyNode, EFG);
    assert Descend(TRIE_3, 2, [Segment(EFG)]) == Descend(b, 5, []) == (b, 5);
  }

  lemma GrownAbcEfg()
    ensures var b := AddChild(AddChild(TRIE_3, 2, ObjectNode, []), 4, KeyNode, EFG);
      b[5 := b[5].(callbacks := b[5].callbacks + [4])] == TRIE_4
  {
    ChildAdded(TRIE_3, 2, ObjectNode, []);
    var a := AddChild(TRIE_3, 2, ObjectNode, []);
    ChildAdded(a, 4, KeyNode, EFG);
    var b := AddChild(a, 4, KeyNode, EFG);
    var r := b[5 := b[5].(callbacks := b[5].callbacks + [4])];
    assert r[0] == TRIE_4[0] && r[1] == TRIE_4[1] && r[2] == TRIE_4[2];
    assert r[3] == TRIE_4[3] && r[4] == TRIE_4[4] && r[5] == TRIE_4[5];
  }

  lemma RegisterAbcEfg()
    requires TrieValid(TRIE_3)
    ensures Register(TRIE_3, [Segment(ABC), Segment(EFG)], 4) == TRIE_4
  {
    DescendAbcEfg();
    GrownAbcEfg();
    var b := AddChild(AddChild(TRIE_3, 2, ObjectNode, []), 4, KeyNode, EFG);
    RegisterStep(TRIE_3, [Segment(ABC), Segment(EFG)], 4, b, 5);
  }

  lemma DescendAbcArray()
    ensures Descend(TRIE_4, 0, [Segment(ABC), ARRAY_SEGMENT]) == (AddChild(TRIE_4, 2, ArrayNode, []), 6)
  {
    assert FindChild(TRIE_4, [1, 3], ObjectNode, []) == Some(1);
    ChildFound(TRIE_4, 0, ObjectNode, [], 1);
    assert FindChild(TRIE_4, [2], KeyNode, ABC) == Some(2);
    ChildFound(TRIE_4, 1, KeyNode, ABC, 2);
    assert FindChild(TRIE_4, [4], ArrayNode, []) == None;
    ChildAdded(TRIE_4, 2, ArrayNode, []);
    var a := AddChild(TRIE_4, 2, ArrayNode, []);
    assert Descend(TRIE_4, 2, [ARRAY_SEGMENT]) == Descend(a, 6, []) == (a, 6);
  }

  lemma GrownAbcArray()
    ensures var a := AddChild(TRIE_4, 2, ArrayNode, []);
      a[6 := a[6].(callbacks := a[6].callbacks + [5])] == TRIE_5
  {
    assert FindChild(TRIE_4, [4], ArrayNode, []) == None;
    ChildAdded(TRIE_4, 2, ArrayNode, []);
    var a := AddChild(TRIE_4, 2, ArrayNode, []);
    var r := a[6 := a[6].(callbacks := a[6].callbacks + [5])];
    assert r[0] == TRIE_5[0] && r[1] == TRIE_5[1] && r[2] == TRIE_5[2] && r[3] == TRIE_5[3];
    assert r[4] == TRIE_5[4] && r[5] == TRIE_5[5] && r[6] == TRIE_5[6];
  }

  lemma RegisterAbcArray()
    requires TrieValid(TRIE_4)
    ensures Register(TRIE_4, [Segment(ABC), ARRAY_SEGMENT], 5) == TRIE_5
  {
    DescendAbcArray();
    GrownAbcArray();
    RegisterStep(TRIE_4, [Segment(ABC), ARRAY_SEGMENT], 5, AddChild(TRIE_4, 2, ArrayNode, []), 6);
  }

  lemma DescendArrayAbc()
    ensures Descend(TRIE_5, 0, [ARRAY_SEGMENT, Segment(ABC)])
         == (AddChild(AddChild(TRIE_5, 3, ObjectNode, []), 7, KeyNode, ABC), 8)
  {
    assert FindChild(TRIE_5, [1, 3], ArrayNode, []) == Some(3);
    ChildFound(TRIE_5, 0, ArrayNode, [], 3);
    ChildAdded(TRIE_5, 3, ObjectNode, []);
    var a := AddChild(TRIE_5, 3, ObjectNode, []);
    ChildAdded(a, 7, KeyNode, ABC);
    var b := AddChild(a, 7, KeyNode, ABC);
    assert Descend(TRIE_5, 3, [Segment(ABC)]) == Descend(b, 8, []) == (b, 8);
  }

  lemma GrownArrayAbc()
    ensures var b := AddChild(AddChild(TRIE_5, 3, ObjectNode, []), 7, KeyNode, ABC);
      b[8 := b[8].(callbacks := b[8].callbacks + [6])] == TRIE_6
  {
    ChildAdded(TRIE_5, 3, ObjectNode, []);
    var a := AddChild(TRIE_5, 3, ObjectNode, []);
    ChildAdded(a, 7, KeyNode, ABC);
    var b := AddChild(a, 7, KeyNode, ABC);
    var r := b[8 := b[8].(callbacks := b[8].callbacks + [6])];
    assert r[0] == TRIE_6[0] && r[1] == TRIE_6[1] && r[2] == TRIE_6[2] && r[3] == TRIE_6[3];
    assert r[4] == TRIE_6[4] && r[5] == TRIE_6[5] && r[6] == TRIE_6[6] && r[7] == TRIE_6[7];
    assert r[8] == TRIE_6[8];
  }

  lemma RegisterArrayAbc()
    requires TrieValid(TRIE_5)
    ensures Register(TRIE_5, [ARRAY_SEGMENT, Segment(ABC)], 6) == TRIE_6
  {
    DescendArrayAbc();
    GrownArrayAbc();
    var b := AddChild(AddChild(TRIE_5, 3, ObjectNode, []), 7, KeyNode, ABC);
    RegisterStep(TRIE_5, [ARRAY_SEGMENT, Segment(ABC)], 6, b, 8);
  }

  lemma DescendArrayArray()
    ensures Descend(TRIE_6, 0, [ARRAY_SEGMENT, ARRAY_SEGMENT]) == (AddChild(TRIE_6, 3, ArrayNode, []), 9)
  {
    assert FindChild(TRIE_6, [1, 3], ArrayNode, []) == Some(3);
    ChildFound(TRIE_6, 0, ArrayNode, [], 3);
    assert FindChild(TRIE_6, [7], ArrayNode, []) == None;
    ChildAdded(TRIE_6, 3, ArrayNode, []);
    var a := AddChild(TRIE_6, 3, ArrayNode, []);
    assert Descend(TRIE_6, 3, [ARRAY_SEGMENT]) == Descend(a, 9, []) == (a, 9);
  }

  lemma GrownArrayArray()
    ensures var a := AddChild(TRIE_6, 3, ArrayNode, []);
      a[9 := a[9].(callbacks := a[9].callbacks + [7])] == TEST_TRIE
  {
    assert FindChild(TRIE_6, [7], ArrayNode, []) == None;
    ChildAdded(TRIE_6, 3, ArrayNode, []);
    var a := AddChild(TRIE_6, 3, ArrayNode, []);
    var r := a[9 := a[9].(callbacks := a[9].callbacks + [7])];
    assert r[0] == TEST_TRIE[0] && r[1] == TEST_TRIE[1] && r[2] == TEST_TRIE[2] && r[3] == TEST_TRIE[3];
    assert r[4] == TEST_TRIE[4] && r[5] == TEST_TRIE[5] && r[6] == TEST_TRIE[6] && r[7] == TEST_TRIE[7];
    assert r[8] == TEST_TRIE[8] && r[9] == TEST_TRIE[9];
  }

  lemma RegisterArrayArray()
    requires TrieValid(TRIE_6)
    ensures Register(TRIE_6, [ARRAY_SEGMENT, ARRAY_SEGMENT], 7) == TEST_TRIE
  {
    DescendArrayArray();
    GrownArrayArray();
    RegisterStep(TRIE_6, [ARRAY_SEGMENT, ARRAY_SEGMENT], 7, AddChild(TRIE_6, 3, ArrayNode, []), 9);
  }

  /** Registering the test's seven paths in order builds `TEST_TRIE`. */
  lemma RegisterTestPaths()
    ensures TEST_TRIE == Register(Register(Register(Register(Register(Register(Register(
      [ROOT], [], 1), [Segment(ABC)], 2), [ARRAY_SEGMENT], 3), [Segment(ABC), Segment(EFG)], 4),
      [Segment(ABC), ARRAY_SEGMENT], 5), [ARRAY_SEGMENT, Segment(ABC)], 6), [ARRAY_SEGMENT, ARRAY_SEGMENT], 7)
    ensures TrieValid(TEST_TRIE)
  {
    RegisterRoot();
    RegisterAbc();
    RegisterArray();
    RegisterAbcEfg();
    RegisterAbcArray();
    RegisterArrayAbc();
    RegisterArrayArray();
  }

  lemma TestTrieValid()
    ensures TrieValid(TEST_TRIE)
  {
    RegisterTestPaths();
  }

  // ---------------------------------------------------------------------------
  // Callbacks run
  // ---------------------------------------------------------------------------

  const ROOT_CURSOR := Cursor(0, [], [])

  /** The path text ".[]". */
  const ARRAY_PATH: seq<byte> := [DOT, LBRACKET, RBRACKET]

  /** The text `[true,false,null]`. */
  const LITERALS_TEXT: seq<byte> := [LBRACKET, 0x74, 0x72, 0x75, 0x65, COMMA, 0x66, 0x61, 0x6C, 0x73, 0x65, COMMA,
    0x6E, 0x75, 0x6C, 0x6C, RBRACKET]

  /** Delivering one event and then the rest. */
  lemma DeliverCons(nodes: seq<Node>, c: Cursor, s: seq<byte>, e: Event, rest: seq<Event>,
                    c1: Cursor, k1: seq<Call>, c2: Cursor, k2: seq<Call>)
    requires CursorValid(nodes, c) && Deliver(nodes, c, s, e) == Some((c1, k1))
    requires DeliverAll(nodes, c1, s, rest) == Some((c2, k2))
    ensures DeliverAll(nodes, c, s, [e] + rest) == Some((c2, k1 + k2))
  {
    assert ([e] + rest)[1..] == rest;
  }

  /** Delivering a single event. */
  lemma DeliverOne(nodes: seq<Node>, c: Cursor, s: seq<byte>, e: Event, c1: Cursor, k1: seq<Call>)
    requires CursorValid(nodes, c) && Deliver(nodes, c, s, e) == Some((c1, k1))
    ensures DeliverAll(nodes, c, s, [e]) == Some((c1, k1))
  {
    assert [e][1..] == [];
    assert k1 + [] == k1;
  }

  /** A node with one callback runs just that one. */
  lemma FiredOne(nodes: seq<Node>, c: Cursor, kind: ValueType, start: nat, length: nat, id: nat)
    requires c.pos < |nodes| && nodes[c.pos].callbacks == [id]
    ensures Fired(nodes, c, kind, start, length) == [Call(id, kind, if c.path == [] then [DOT] else c.path, start, length)]
  {
  }

  /** `"abc"`: the root value is a string, so only the root callback runs,
      with path "." and the characters between the quotes. */
  lemma StringAtRoot()
    ensures TrieValid(TEST_TRIE)
    ensures DeliverAll(TEST_TRIE, ROOT_CURSOR, [QUOTE, 0x61, 0x62, 0x63, QUOTE], [PrimitiveValue(String, 1, 3)])
         == Some((ROOT_CURSOR, [Call(1, String, [DOT], 1, 3)]))
  {
    TestTrieValid();
    var s: seq<byte> := [QUOTE, 0x61, 0x62, 0x63, QUOTE];
    FiredOne(TEST_TRIE, ROOT_CURSOR, String, 1, 3, 1);
    assert StepBack(TEST_TRIE, ROOT_CURSOR) == ROOT_CURSOR;
    assert Deliver(TEST_TRIE, ROOT_CURSOR, s, PrimitiveValue(String, 1, 3))
        == Some((ROOT_CURSOR, [Call(1, String, [DOT], 1, 3)]));
    assert DeliverAll(TEST_TRIE, ROOT_CURSOR, s, []) == Some((ROOT_CURSOR, []));
    DeliverCons(TEST_TRIE, ROOT_CURSOR, s, PrimitiveValue(String, 1, 3), [],
                ROOT_CURSOR, [Call(1, String, [DOT], 1, 3)], ROOT_CURSOR, []);
    assert [PrimitiveValue(String, 1, 3)] + [] == [PrimitiveValue(String, 1, 3)];
    assert [Call(1, String, [DOT], 1, 3)] + [] == [Call(1, String, [DOT], 1, 3)];
  }

  /** The cursor on the Array node of ".[]". */
  const IN_ROOT_ARRAY := Cursor(3, [], ARRAY_PATH)

  /** A root array moves the cursor to the Array node of ".[]". */
  lemma EnterRootArray(s: seq<byte>, p: nat)
    ensures TrieValid(TEST_TRIE) && CursorValid(TEST_TRIE, ROOT_CURSOR)
    ensures Deliver(TEST_TRIE, ROOT_CURSOR, s, ArrayStart(p)) == Some((IN_ROOT_ARRAY, []))
  {
    TestTrieValid();
    assert FindChild(TEST_TRIE, [1, 3], ArrayNode, []) == Some(3);
    assert ChildFor(TEST_TRIE, 0, ArrayNode, []) == Some(3);
    assert ([] + [DOT]) + ARRAY_TRAITS.repr == ARRAY_PATH;
  }

  /** A primitive value in the root array runs the callback of ".[]". */
  lemma PrimitiveInRootArray(s: seq<byte>, kind: ValueType, start: nat, length: nat)
    ensures TrieValid(TEST_TRIE) && CursorValid(TEST_TRIE, IN_ROOT_ARRAY)
    ensures Deliver(TEST_TRIE, IN_ROOT_ARRAY, s, PrimitiveValue(kind, start, length))
         == Some((IN_ROOT_ARRAY, [Call(3, kind, ARRAY_PATH, start, length)]))
  {
    EnterRootArray(s, 0);
    assert StepBack(TEST_TRIE, IN_ROOT_ARRAY) == IN_ROOT_ARRAY;
    FiredOne(TEST_TRIE, IN_ROOT_ARRAY, kind, start, length, 3);
  }

  /** Closing the root array returns to the root and runs its callback. */
  lemma LeaveRootArray(s: seq<byte>, start: nat, length: nat)
    ensures TrieValid(TEST_TRIE) && CursorValid(TEST_TRIE, IN_ROOT_ARRAY)
    ensures Deliver(TEST_TRIE, IN_ROOT_ARRAY, s, ArrayEnd(start, length))
         == Some((ROOT_CURSOR, [Call(1, Array, [DOT], start, length)]))
  {
    EnterRootArray(s, 0);
    FiredOne(TEST_TRIE, ROOT_CURSOR, Array, start, length, 1);
    assert ClosedPath(ARRAY_PATH, ARRAY_TRAITS) == [];
    assert StepBack(TEST_TRIE, ROOT_CURSOR) == ROOT_CURSOR;
  }

  /** `[true,false,null]`: each literal runs the callback of ".[]" as it is
      read, and the array then runs the root callback. */
  lemma LiteralsInRootArray()
    ensures TrieValid(TEST_TRIE)
    ensures DeliverAll(TEST_TRIE, ROOT_CURSOR, LITERALS_TEXT,
      [ArrayStart(0), PrimitiveValue(True, 1, 4), PrimitiveValue(False, 6, 5), PrimitiveValue(Null, 12, 4), ArrayEnd(0, 17)])
      == Some((ROOT_CURSOR, [Call(3, True, ARRAY_PATH, 1, 4), Call(3, False, ARRAY_PATH, 6, 5),
                             Call(3, Null, ARRAY_PATH, 12, 4), Call(1, Array, [DOT], 0, 17)]))
  {
    var s, T := LITERALS_TEXT, TEST_TRIE;
    var e0, e1, e2, e3, e4 :=
      ArrayStart(0), PrimitiveValue(True, 1, 4), PrimitiveValue(False, 6, 5), PrimitiveValue(Null, 12, 4), ArrayEnd(0, 17);
    var k1, k2, k3, k4 :=
      Call(3, True, ARRAY_PATH, 1, 4), Call(3, False, ARRAY_PATH, 6, 5), Call(3, Null, ARRAY_PATH, 12, 4), Call(1, Array, [DOT], 0, 17);
    EnterRootArray(s, 0);
    PrimitiveInRootArray(s, True, 1, 4);
    PrimitiveInRootArray(s, False, 6, 5);
    PrimitiveInRootArray(s, Null, 12, 4);
    LeaveRootArray(s, 0, 17);
    DeliverOne(T, IN_ROOT_ARRAY, s, e4, ROOT_CURSOR, [k4]);
    DeliverCons(T, IN_ROOT_ARRAY, s, e3, [e4], IN_ROOT_ARRAY, [k3], ROOT_CURSOR, [k4]);
    DeliverCons(T, IN_ROOT_ARRAY, s, e2, [e3] + [e4], IN_ROOT_ARRAY, [k2], ROOT_CURSOR, [k3] + [k4]);
    DeliverCons(T, IN_ROOT_ARRAY, s, e1, [e2] + ([e3] + [e4]), IN_ROOT_ARRAY, [k1], ROOT_CURSOR, [k2] + ([k3] + [k4]));
    DeliverCons(T, ROOT_CURSOR, s, e0, [e1] + ([e2] + ([e3] + [e4])), IN_ROOT_ARRAY, [], ROOT_CURSOR, [k1] + ([k2] + ([k3] + [k4])));
    assert [e0] + ([e1] + ([e2] + ([e3] + [e4]))) == [e0, e1, e2, e3, e4];
    assert [] + ([k1] + ([k2] + ([k3] + [k4]))) == [k1, k2, k3, k4];
  }

  /** The text `{"def":[{"xyz":[]}],"def":{"xyz":[3]}}`. */
  const DEF_TEXT: seq<byte> := [LBRACE, QUOTE, 0x64, 0x65, 0x66, QUOTE, COLON, LBRACKET, LBRACE, QUOTE, 0x78, 0x79,
    0x7A, QUOTE, COLON, LBRACKET, RBRACKET, RBRACE, RBRACKET, COMMA, QUOTE, 0x64, 0x65, 0x66, QUOTE, COLON, LBRACE,
    QUOTE, 0x78, 0x79, 0x7A, QUOTE, COLON, LBRACKET, 0x33, RBRACKET, RBRACE, RBRACE]

  /** The events the parser reports on `DEF_TEXT`. */
  const DEF_EVENTS: seq<Event> := [
    ObjectStart(0), ObjectKey(2, 3), ArrayStart(7), ObjectStart(8),
    ObjectKey(10, 3), ArrayStart(15), ArrayEnd(15, 2), ObjectEnd(8, 10),
    ArrayEnd(7, 12), ObjectKey(21, 3), ObjectStart(26), ObjectKey(28, 3),
    ArrayStart(33), PrimitiveValue(Number, 34, 1), ArrayEnd(33, 3), ObjectEnd(26, 11),
    ObjectEnd(0, 38)]

  /** The one callback `DEF_TEXT` runs: the root's, for the whole object. */
  const ROOT_CALL := Call(1, Object, [DOT], 0, 38)

  /** The cursor on the Object node below the root. */
  const IN_ROOT_OBJECT := Cursor(1, [], [DOT])

  /** A root object moves the cursor to the Object node below the root. */
  lemma EnterRootObject(s: seq<byte>, p: nat)
    ensures TrieValid(TEST_TRIE) && CursorValid(TEST_TRIE, ROOT_CURSOR)
    ensures Deliver(TEST_TRIE, ROOT_CURSOR, s, ObjectStart(p)) == Some((IN_ROOT_OBJECT, []))
  {
    TestTrieValid();
    assert FindChild(TEST_TRIE, [1, 3], ObjectNode, []) == Some(1);
    assert ChildFor(TEST_TRIE, 0, ObjectNode, []) == Some(1);
    assert [] + OBJECT_TRAITS.repr == [DOT];
  }

  /** A key other than "abc" in the root object is below every registered
      path: only an overflow marker is pushed. */
  lemma UnknownKeyInRootObject(s: seq<byte>, start: nat, length: nat)
    requires Span(s, start, length) != ABC
    ensures TrieValid(TEST_TRIE) && CursorValid(TEST_TRIE, IN_ROOT_OBJECT)
    ensures Deliver(TEST_TRIE, IN_ROOT_OBJECT, s, ObjectKey(start, length)) == Some((Cursor(1, [KeyMark], [DOT]), []))
  {
    EnterRootObject(s, 0);
    var key := Span(s, start, length);
    assert !Fits(TEST_TRIE[2], KeyNode, key);
    assert FindChild(TEST_TRIE, [2][1..], KeyNode, key) == None;
    assert FindChild(TEST_TRIE, TEST_TRIE[1].children, KeyNode, key) == None;
    assert ChildFor(TEST_TRIE, 1, KeyNode, key) == None;
    assert [] + [KeyMark] == [KeyMark];
  }

  // ---------------------------------------------------------------------------
  // Below the trie
  // ---------------------------------------------------------------------------

  /** The overflow stack after event `e`, delivered while the cursor is below
      the trie (the stack is not empty), when the event runs no callback: a
      collection or a key pushes its marker, a value ends a member, the end of
      a collection pops its marker and the member's key. `None` where the
      handler's assertion fails, or where the end closes the collection the
      cursor's own node stands for, which runs that node's callbacks. */
  function QuietStep(o: seq<Mark>, e: Event): Option<seq<Mark>>
    requires o != []
  {
    match e
    case ObjectStart(_) => if Last(o) != ObjectMark then Some(o + [ObjectMark]) else None
    case ArrayStart(_) => if Last(o) != ObjectMark then Some(o + [ArrayMark]) else None
    case ObjectKey(_, _) => if Last(o) == ObjectMark then Some(o + [KeyMark]) else None
    case PrimitiveValue(_, _, _) =>
      if Last(o) == ObjectMark then None else if Last(o) == KeyMark then Some(DropLast(o)) else Some(o)
    case ObjectEnd(_, _) => QuietClose(o, ObjectMark)
    case ArrayEnd(_, _) => QuietClose(o, ArrayMark)
  }

  function QuietClose(o: seq<Mark>, m: Mark): Option<seq<Mark>>
    requires o != []
  {
    if Last(o) != m || DropLast(o) == [] then None
    else if Last(DropLast(o)) == KeyMark then Some(DropLast(DropLast(o)))
    else Some(DropLast(o))
  }

  /** `QuietStep` over a sequence of events, each met below the trie. */
  function QuietRun(o: seq<Mark>, evs: seq<Event>): Option<seq<Mark>>
    decreases |evs|
  {
    if evs == [] then Some(o)
    else if o == [] then None
    else match QuietStep(o, evs[0])
      case None => None
      case Some(o1) => QuietRun(o1, evs[1..])
  }

  /** Below the trie the dispatcher does what `QuietStep` says: it runs no
      callback and only the overflow stack changes. */
  lemma QuietStepDelivers(nodes: seq<Node>, c: Cursor, s: seq<byte>, e: Event)
    requires CursorValid(nodes, c) && c.overflow != [] && QuietStep(c.overflow, e).Some?
    ensures Deliver(nodes, c, s, e) == Some((c.(overflow := QuietStep(c.overflow, e).value), []))
  {
    if e.ObjectEnd? || e.ArrayEnd? {
      var t := if e.ObjectEnd? then OBJECT_TRAITS else ARRAY_TRAITS;
      EndStepCases(nodes, c, t, e.start, e.length);
    }
  }

  lemma SplitFirst<T>(xs: seq<T>, ys: seq<T>)
    requires xs != []
    ensures xs + ys == [xs[0]] + (xs[1..] + ys)
  {
  }

  /** `QuietRun` takes the first event, then the rest. */
  lemma QuietRunFirst(o: seq<Mark>, e: Event, evs: seq<Event>, o1: seq<Mark>)
    requires o != [] && QuietStep(o, e) == Some(o1)
    ensures QuietRun(o, [e] + evs) == QuietRun(o1, evs)
  {
    assert ([e] + evs)[1..] == evs;
  }

  /** One event below the trie, then the rest from where it leaves the cursor. */
  lemma QuietThen(nodes: seq<Node>, c: Cursor, s: seq<byte>, e: Event, rest: seq<Event>, c2: Cursor, k: seq<Call>)
    requires CursorValid(nodes, c) && c.overflow != [] && QuietStep(c.overflow, e).Some?
    requires DeliverAll(nodes, c.(overflow := QuietStep(c.overflow, e).value), s, rest) == Some((c2, k))
    ensures DeliverAll(nodes, c, s, [e] + rest) == Some((c2, k))
  {
    QuietStepDelivers(nodes, c, s, e);
    DeliverQuiet(nodes, c, s, e, rest, c.(overflow := QuietStep(c.overflow, e).value), c2, k);
  }

  /** Events met below the trie, as long as `QuietRun` accepts them, run no
      callback and leave the cursor where `QuietRun` says; the rest is then
      delivered from there. */
  lemma {:induction false} QuietBelowTrie(nodes: seq<Node>, c: Cursor, s: seq<byte>, evs: seq<Event>,
                                          rest: seq<Event>, c2: Cursor, k: seq<Call>)
    requires CursorValid(nodes, c) && QuietRun(c.overflow, evs).Some?
    requires DeliverAll(nodes, c.(overflow := QuietRun(c.overflow, evs).value), s, rest) == Some((c2, k))
    ensures DeliverAll(nodes, c, s, evs + rest) == Some((c2, k))
    decreases |evs|
  {
    if evs == [] {
      assert evs + rest == rest;
      assert c.(overflow := c.overflow) == c;
    } else {
      var c1 := c.(overflow := QuietStep(c.overflow, evs[0]).value);
      assert QuietRun(c1.overflow, evs[1..]) == QuietRun(c.overflow, evs);
      QuietBelowTrie(nodes, c1, s, evs[1..], rest, c2, k);
      QuietThen(nodes, c, s, evs[0], evs[1..] + rest, c2, k);
      SplitFirst(evs, rest);
    }
  }

  /** Closing the root object returns to the root and runs its callback. */
  lemma LeaveRootObject(s: seq<byte>, start: nat, length: nat)
    ensures TrieValid(TEST_TRIE) && CursorValid(TEST_TRIE, IN_ROOT_OBJECT)
    ensures Deliver(TEST_TRIE, IN_ROOT_OBJECT, s, ObjectEnd(start, length))
         == Some((ROOT_CURSOR, [Call(1, Object, [DOT], start, length)]))
  {
    EnterRootObject(s, 0);
    FiredOne(TEST_TRIE, ROOT_CURSOR, Object, start, length, 1);
    assert ClosedPath([DOT], OBJECT_TRAITS) == [];
    assert StepBack(TEST_TRIE, ROOT_CURSOR) == ROOT_CURSOR;
  }

  /** An event that runs no callback, then the rest. */
  lemma DeliverQuiet(nodes: seq<Node>, c: Cursor, s: seq<byte>, e: Event, rest: seq<Event>,
                     c1: Cursor, c2: Cursor, k: seq<Call>)
    requires CursorValid(nodes, c) && Deliver(nodes, c, s, e) == Some((c1, []))
    requires DeliverAll(nodes, c1, s, rest) == Some((c2, k))
    ensures DeliverAll(nodes, c, s, [e] + rest) == Some((c2, k))
  {
    assert ([e] + rest)[1..] == rest;
    assert [] + k == k;
  }

  /** The cursor on the root object's node with the markers `o` counted
      below the trie. */
  function Below(o: seq<Mark>): Cursor {
    Cursor(1, o, [DOT])
  }

  /** The events of the first member of `DEF_TEXT` after its key. */
  const FIRST_VALUE_EVENTS: seq<Event> := [ArrayStart(7), ObjectStart(8), ObjectKey(10, 3),
    ArrayStart(15), ArrayEnd(15, 2), ObjectEnd(8, 10), ArrayEnd(7, 12)]

  /** The events of the second member of `DEF_TEXT` after its key. */
  const SECOND_VALUE_EVENTS: seq<Event> := [ObjectStart(26), ObjectKey(28, 3), ArrayStart(33),
    PrimitiveValue(Number, 34, 1), ArrayEnd(33, 3), ObjectEnd(26, 11)]

  /** Both member values of `DEF_TEXT`, met below a key no node carries, end
      with the overflow stack empty again. */
  lemma DefValuesQuiet()
    ensures QuietRun([KeyMark], FIRST_VALUE_EVENTS) == Some([])
    ensures QuietRun([KeyMark], SECOND_VALUE_EVENTS) == Some([])
  {
    var K, A, O := KeyMark, ArrayMark, ObjectMark;
    assert DropLast([K, A, O, K, A]) == [K, A, O, K] && DropLast([K, A, O, K]) == [K, A, O];
    assert DropLast([K, A, O]) == [K, A] && DropLast([K, A]) == [K];
    assert DropLast([K, O, K, A]) == [K, O, K] && DropLast([K, O, K]) == [K, O] && DropLast([K, O]) == [K];
    assert [K] + [A] == [K, A] && [K, A] + [O] == [K, A, O] && [K, A, O] + [K] == [K, A, O, K];
    assert [K, A, O, K] + [A] == [K, A, O, K, A];
    assert [K] + [O] == [K, O] && [K, O] + [K] == [K, O, K] && [K, O, K] + [A] == [K, O, K, A];
    QuietRunFirst([K, A], ArrayEnd(7, 12), [], []);
    var a6 := [ArrayEnd(7, 12)] + [];
    QuietRunFirst([K, A, O], ObjectEnd(8, 10), a6, [K, A]);
    var a5 := [ObjectEnd(8, 10)] + a6;
    QuietRunFirst([K, A, O, K, A], ArrayEnd(15, 2), a5, [K, A, O]);
    var a4 := [ArrayEnd(15, 2)] + a5;
    QuietRunFirst([K, A, O, K], ArrayStart(15), a4, [K, A, O, K, A]);
    var a3 := [ArrayStart(15)] + a4;
    QuietRunFirst([K, A, O], ObjectKey(10, 3), a3, [K, A, O, K]);
    var a2 := [ObjectKey(10, 3)] + a3;
    QuietRunFirst([K, A], ObjectStart(8), a2, [K, A, O]);
    var a1 := [ObjectStart(8)] + a2;
    QuietRunFirst([K], ArrayStart(7), a1, [K, A]);
    var a0 := [ArrayStart(7)] + a1;
    assert a0 == FIRST_VALUE_EVENTS;
    QuietRunFirst([K, O], ObjectEnd(26, 11), [], []);
    var b5 := [ObjectEnd(26, 11)] + [];
    QuietRunFirst([K, O, K, A], ArrayEnd(33, 3), b5, [K, O]);
    var b4 := [ArrayEnd(33, 3)] + b5;
    QuietRunFirst([K, O, K, A], PrimitiveValue(Number, 34, 1), b4, [K, O, K, A]);
    var b3 := [PrimitiveValue(Number, 34, 1)] + b4;
    QuietRunFirst([K, O, K], ArrayStart(33), b3, [K, O, K, A]);
    var b2 := [ArrayStart(33)] + b3;
    QuietRunFirst([K, O], ObjectKey(28, 3), b2, [K, O, K]);
    var b1 := [ObjectKey(28, 3)] + b2;
    QuietRunFirst([K], ObjectStart(26), b1, [K, O]);
    var b0 := [ObjectStart(26)] + b1;
    assert b0 == SECOND_VALUE_EVENTS;
  }

  /** `{"def":[{"xyz":[]}],"def":{"xyz":[3]}}`: no key of the text is
      registered, so everything below the root object is only counted on the
      overflow stack, and only the root callback runs. */
  lemma NothingBelowUnknownKeys()
    ensures TrieValid(TEST_TRIE)
    ensures DeliverAll(TEST_TRIE, ROOT_CURSOR, DEF_TEXT, DEF_EVENTS) == Some((ROOT_CURSOR, [ROOT_CALL]))
  {
    var s := DEF_TEXT;
    assert Span(s, 2, 3)[0] == s[2] == 0x64 && Span(s, 21, 3)[0] == s[21] == 0x64;
    EnterRootObject(s, 0);
    UnknownKeyInRootObject(s, 2, 3);
    UnknownKeyInRootObject(s, 21, 3);
    LeaveRootObject(s, 0, 38);
    TestTrieValid();
    DefValuesQuiet();
    var c, k := ROOT_CURSOR, [ROOT_CALL];
    var last := [ObjectEnd(0, 38)];
    DeliverOne(TEST_TRIE, IN_ROOT_OBJECT, s, ObjectEnd(0, 38), c, k);
    assert Below([KeyMark]).(overflow := []) == IN_ROOT_OBJECT;
    QuietBelowTrie(TEST_TRIE, Below([KeyMark]), s, SECOND_VALUE_EVENTS, last, c, k);
    var second := [ObjectKey(21, 3)] + (SECOND_VALUE_EVENTS + last);
    DeliverQuiet(TEST_TRIE, IN_ROOT_OBJECT, s, ObjectKey(21, 3), SECOND_VALUE_EVENTS + last, Below([KeyMark]), c, k);
    QuietBelowTrie(TEST_TRIE, Below([KeyMark]), s, FIRST_VALUE_EVENTS, second, c, k);
    var first := [ObjectKey(2, 3)] + (FIRST_VALUE_EVENTS + second);
    DeliverQuiet(TEST_TRIE, IN_ROOT_OBJECT, s, ObjectKey(2, 3), FIRST_VALUE_EVENTS + second, Below([KeyMark]), c, k);
    DeliverQuiet(TEST_TRIE, ROOT_CURSOR, s, ObjectStart(0), first, IN_ROOT_OBJECT, c, k);
    DefEventsPieces();
  }

  /** `DEF_EVENTS` is the root object's start, its two members and its end. */
  lemma DefEventsPieces()
    ensures [ObjectStart(0)] + ([ObjectKey(2, 3)] + (FIRST_VALUE_EVENTS +
      ([ObjectKey(21, 3)] + (SECOND_VALUE_EVENTS + [ObjectEnd(0, 38)])))) == DEF_EVENTS
  {
  }
}
