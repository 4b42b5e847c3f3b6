/**
 * Walking a parsed syntax tree: the explicit-stack pre-order walk of
 * `_iter_all_nodes`, `_get_first_child_of_type`, and the path lookups of
 * `_NodeWrapper.get` and `_NodeWrapper.text`. The tree is an abstract
 * value standing for a tree-sitter node.
 */
module SyntaxTree {
  import opened Wrappers

  /**
   * A tree-sitter node: its type, whether the grammar names it, the byte
   * range of the source it spans, and all its children (named or not).
   */
  datatype Node = Node(kind: string, named: bool, startByte: nat, endByte: nat, children: seq<Node>)

  /** The nodes of `n` in recursive left-to-right pre-order: a node, then each child's subtree. */
  function PreOrder(n: Node): (r: seq<Node>)
    ensures r != [] && r[0] == n
    decreases n, 1
  {
    [n] + PreOrderAll(n.children)
  }

  /** The pre-orders of the trees of `ns`, one after another. */
  function PreOrderAll(ns: seq<Node>): seq<Node>
    decreases ns, 0
  {
    if ns == [] then [] else PreOrder(ns[0]) + PreOrderAll(ns[1..])
  }

  /** The number of nodes of the tree `n`. */
  function Size(n: Node): nat
    decreases n, 1
  {
    1 + SizeAll(n.children)
  }

  function SizeAll(ns: seq<Node>): nat
    decreases ns, 0
  {
    if ns == [] then 0 else Size(ns[0]) + SizeAll(ns[1..])
  }

  /** `m` is `n` or a node somewhere below it. */
  predicate Within(m: Node, n: Node)
    decreases n
  {
    m == n || exists k :: 0 <= k < |n.children| && Within(m, n.children[k])
  }

  /** `m` is within one of the trees of `ns`. */
  predicate WithinAny(m: Node, ns: seq<Node>) {
    exists k :: 0 <= k < |ns| && Within(m, ns[k])
  }

  /** The walk lists as many nodes as the tree has: each node once. */
  lemma {:induction false} PreOrderSize(n: Node)
    ensures |PreOrder(n)| == Size(n)
    decreases n, 1
  {
    PreOrderAllSize(n.children);
  }

  lemma {:induction false} PreOrderAllSize(ns: seq<Node>)
    ensures |PreOrderAll(ns)| == SizeAll(ns)
    decreases ns, 0
  {
    if ns != [] {
      PreOrderSize(ns[0]);
      PreOrderAllSize(ns[1..]);
    }
  }

  /** The walk lists exactly the nodes within the tree. */
  lemma {:induction false} PreOrderMembers(n: Node, m: Node)
    ensures m in PreOrder(n) <==> Within(m, n)
    decreases n, 1
  {
    PreOrderAllMembers(n.children, m);
  }

  lemma {:induction false} PreOrderAllMembers(ns: seq<Node>, m: Node)
    ensures m in PreOrderAll(ns) <==> WithinAny(m, ns)
    decreases ns, 0
  {
    if ns != [] {
      PreOrderMembers(ns[0], m);
      PreOrderAllMembers(ns[1..], m);
      if WithinAny(m, ns[1..]) {
        var k :| 0 <= k < |ns[1..]| && Within(m, ns[1..][k]);
        assert Within(m, ns[k + 1]);
      }
      if WithinAny(m, ns) && !Within(m, ns[0]) {
        var k :| 0 <= k < |ns| && Within(m, ns[k]);
        assert ns[1..][k - 1] == ns[k];
      }
    }
  }

  lemma {:induction false} PreOrderAllConcat(a: seq<Node>, b: seq<Node>)
    ensures PreOrderAll(a + b) == PreOrderAll(a) + PreOrderAll(b)
    decreases a
  {
    if a == [] {
      assert a + b == b;
    } else {
      assert (a + b)[1..] == a[1..] + b;
      PreOrderAllConcat(a[1..], b);
    }
  }

  function Reversed(s: seq<Node>): (r: seq<Node>)
    ensures |r| == |s|
    ensures forall k :: 0 <= k < |s| ==> r[k] == s[|s| - 1 - k]
  {
    if s == [] then [] else Reversed(s[1..]) + [s[0]]
  }

  /** What is still to be listed while `stack` waits: the trees on it, the top one first. */
  function Pending(stack: seq<Node>): seq<Node> {
    PreOrderAll(Reversed(stack))
  }

  /** Popping a node and pushing its children in reverse leaves the rest of its subtree first. */
  lemma PopPush(stack: seq<Node>)
    requires stack != []
    ensures Pending(stack)
            == [stack[|stack| - 1]]
               + Pending(stack[..|stack| - 1] + Reversed(stack[|stack| - 1].children))
  {
    var top := stack[|stack| - 1];
    var rest := stack[..|stack| - 1];
    assert Reversed(stack) == [top] + Reversed(rest);
    assert Reversed(rest + Reversed(top.children)) == top.children + Reversed(rest);
    PreOrderAllConcat(top.children, Reversed(rest));
    var r := Reversed(rest);
    assert ([top] + r)[0] == top && ([top] + r)[1..] == r;
    assert Pending(stack) == PreOrder(top) + PreOrderAll(r);
    assert PreOrder(top) == [top] + PreOrderAll(top.children);
  }

  /**
   * `_iter_all_nodes`: pops the top of an explicit stack, lists it, and
   * pushes its children in reverse; the nodes come out in pre-order.
   */
  method IterAllNodes(root: Node) returns (visited: seq<Node>)
    ensures visited == PreOrder(root)
  {
    var stack := [root];
    visited := [];
    assert Reversed([root]) == [root];
    assert PreOrderAll([root]) == PreOrder(root) + PreOrderAll([]);
    while stack != []
      invariant visited + Pending(stack) == PreOrder(root)
      decreases |PreOrder(root)| - |visited|
    {
      PopPush(stack);
      var node := stack[|stack| - 1];
      stack := stack[..|stack| - 1];
      visited := visited + [node];
      stack := stack + Reversed(node.children);
    }
  }

  /** The walk starts at the root, lists every node of the tree once, and lists nothing else. */
  lemma IterAllNodesComplete(root: Node, m: Node)
    ensures PreOrder(root)[0] == root
    ensures |PreOrder(root)| == Size(root)
    ensures m in PreOrder(root) <==> Within(m, root)
  {
    PreOrderSize(root);
    PreOrderMembers(root, m);
  }

  /** `node.named_children`: the children the grammar names, in order. */
  function NamedChildren(children: seq<Node>): (r: seq<Node>)
    ensures |r| <= |children|
    ensures forall k :: 0 <= k < |r| ==> r[k].named && r[k] in children
    ensures forall c :: c in children && c.named ==> c in r
  {
    if children == [] then []
    else
      var rest := NamedChildren(children[1..]);
      assert forall c :: c in children ==> c == children[0] || c in children[1..];
      if children[0].named then [children[0]] + rest else rest
  }

  /**
   * The named children of two runs of children are those of the first run
   * followed by those of the second; with the one-child cases this fixes
   * `NamedChildren` as the order-keeping filter on `named`.
   */
  lemma {:induction false} NamedChildrenConcat(a: seq<Node>, b: seq<Node>)
    ensures NamedChildren(a + b) == NamedChildren(a) + NamedChildren(b)
  {
    if a == [] {
      assert a + b == b;
    } else {
      assert (a + b)[1..] == a[1..] + b;
      assert (a + b)[0] == a[0];
      NamedChildrenConcat(a[1..], b);
    }
  }

  /** One child is kept exactly when it is named. */
  lemma NamedChildrenSingle(c: Node)
    ensures NamedChildren([c]) == if c.named then [c] else []
  {
    assert [c][1..] == [];
  }

  /** The first of `nodes` whose type is `kind`, if there is one. */
  function FirstOfType(nodes: seq<Node>, kind: string): (r: Option<Node>)
    ensures r.Some? <==> exists k :: 0 <= k < |nodes| && nodes[k].kind == kind
    ensures r.Some? ==> exists k :: 0 <= k < |nodes| && nodes[k] == r.value && r.value.kind == kind &&
                          forall j :: 0 <= j < k ==> nodes[j].kind != kind
  {
    if nodes == [] then None
    else if nodes[0].kind == kind then Some(nodes[0])
    else
      var r := FirstOfType(nodes[1..], kind);
      FirstAfterHead(nodes, kind, r);
      r
  }

  /** The first match after a head that does not match is the first match of the whole. */
  lemma FirstAfterHead(nodes: seq<Node>, kind: string, r: Option<Node>)
    requires nodes != [] && nodes[0].kind != kind
    requires r.Some? <==> exists k :: 0 <= k < |nodes[1..]| && nodes[1..][k].kind == kind
    requires r.Some? ==> exists k :: 0 <= k < |nodes[1..]| && nodes[1..][k] == r.value && r.value.kind == kind &&
                           forall j :: 0 <= j < k ==> nodes[1..][j].kind != kind
    ensures r.Some? <==> exists k :: 0 <= k < |nodes| && nodes[k].kind == kind
    ensures r.Some? ==> exists k :: 0 <= k < |nodes| && nodes[k] == r.value && r.value.kind == kind &&
                          forall j :: 0 <= j < k ==> nodes[j].kind != kind
  {
    if r.Some? {
      var k :| 0 <= k < |nodes[1..]| && nodes[1..][k] == r.value && r.value.kind == kind &&
               forall j :: 0 <= j < k ==> nodes[1..][j].kind != kind;
      assert nodes[k + 1] == r.value;
      forall j | 0 <= j < k + 1
        ensures nodes[j].kind != kind
      {
        if j > 0 {
          assert nodes[j] == nodes[1..][j - 1];
        }
      }
    } else {
      forall k | 0 <= k < |nodes|
        ensures nodes[k].kind != kind
      {
        if k > 0 {
          assert nodes[k] == nodes[1..][k - 1];
        }
      }
    }
  }

  /** `_get_first_child_of_type` as a value: the first named child of the type, or the ValueError. */
  function ChildOfType(node: Node, kind: string): Result<Node> {
    match FirstOfType(NamedChildren(node.children), kind)
    case Some(child) => Ok(child)
    case None => Err(ChildNotFound(kind))
  }

  /** `_get_first_child_of_type`: scans the named children for the first of the type. */
  method GetFirstChildOfType(node: Node, kind: string) returns (r: Result<Node>)
    ensures r == ChildOfType(node, kind)
  {
    var children := NamedChildren(node.children);
    for i := 0 to |children|
      invariant FirstOfType(children, kind) == FirstOfType(children[i..], kind)
    {
      assert children[i..][1..] == children[i + 1..];
      if children[i].kind == kind {
        return Ok(children[i]);
      }
    }
    assert children[|children|..] == [];
    return Err(ChildNotFound(kind));
  }

  /** One step of a `_NodeWrapper.get` path: a child type name, or an index among the named children. */
  datatype PathStep = ByType(kind: string) | ByIndex(index: nat)

  /** One step down from `node`; an index past the named children gives None, which `_verify` refuses. */
  function Child(node: Node, step: PathStep): (r: Result<Node>)
    ensures r.Ok? ==> r.value in node.children
    ensures step.ByType? ==> r == ChildOfType(node, step.kind)
    ensures step.ByIndex? ==> (r.Ok? <==> step.index < |NamedChildren(node.children)|)
    ensures step.ByIndex? && r.Ok? ==> r.value == NamedChildren(node.children)[step.index]
  {
    match step
    case ByType(kind) => ChildOfType(node, kind)
    case ByIndex(i) =>
      var named := NamedChildren(node.children);
      Verify(if i < |named| then Some(named[i]) else None)
  }

  /** The node reached from `node` along `path`, or the error of the first step that fails. */
  function Walk(node: Node, path: seq<PathStep>): Result<Node> {
    if path == [] then Ok(node)
    else
      match Child(node, path[0])
      case Err(e) => Err(e)
      case Ok(child) => Walk(child, path[1..])
  }

  /** `_NodeWrapper`: a node and the bytes of the whole document it was parsed from. */
  datatype Wrapper = Wrapper(node: Node, data: seq<bv8>)

  /** `_NodeWrapper.get`: steps down one child at a time along `path`. */
  method Get(wrapper: Wrapper, path: seq<PathStep>) returns (r: Result<Wrapper>)
    ensures r.Ok? <==> Walk(wrapper.node, path).Ok?
    ensures r.Ok? ==> r.value == Wrapper(Walk(wrapper.node, path).value, wrapper.data)
    ensures r.Err? ==> r.error == Walk(wrapper.node, path).error
  {
    var current := wrapper.node;
    for i := 0 to |path|
      invariant Walk(wrapper.node, path) == Walk(current, path[i..])
    {
      assert path[i..][1..] == path[i + 1..];
      var child: Result<Node>;
      match path[i] {
        case ByType(kind) =>
          child := GetFirstChildOfType(current, kind);
        case ByIndex(index) =>
          var named := NamedChildren(current.children);
          child := Verify(if index < |named| then Some(named[index]) else None);
      }
      if child.Err? {
        return Err(child.error);
      }
      current := child.value;
    }
    assert path[|path|..] == [];
    return Ok(Wrapper(current, wrapper.data));
  }

  /** Walking two paths one after the other is walking the joined path. */
  lemma {:induction false} WalkConcat(node: Node, a: seq<PathStep>, b: seq<PathStep>)
    ensures Walk(node, a + b) == match Walk(node, a)
                                 case Err(e) => Err(e)
                                 case Ok(mid) => Walk(mid, b)
  {
    if a == [] {
      assert a + b == b;
    } else {
      assert (a + b)[0] == a[0];
      assert (a + b)[1..] == a[1..] + b;
      match Child(node, a[0])
      case Err(_) =>
      case Ok(child) => WalkConcat(child, a[1..], b);
    }
  }

  /** Any node a path reaches lies within the node the walk started from. */
  lemma {:induction false} WalkWithin(node: Node, path: seq<PathStep>)
    ensures Walk(node, path).Ok? ==> Within(Walk(node, path).value, node)
  {
    if path != [] && Child(node, path[0]).Ok? {
      var child := Child(node, path[0]).value;
      WalkWithin(child, path[1..]);
      if Walk(child, path[1..]).Ok? {
        var k :| 0 <= k < |node.children| && node.children[k] == child;
        assert Within(Walk(node, path).value, node.children[k]);
      }
    }
  }

  /** An index step succeeds exactly when the node has that many named children. */
  lemma IndexStep(node: Node, i: nat)
    ensures Child(node, ByIndex(i)).Ok? <==> i < |NamedChildren(node.children)|
    ensures Child(node, ByIndex(i)).Err? ==> Child(node, ByIndex(i)).error == MissingValue
  {
  }

  /** `data[start:end]` with Python's clamping of bounds past the end. */
  function Slice(data: seq<bv8>, start: nat, end: nat): (r: seq<bv8>)
    ensures start <= end <= |data| ==> r == data[start..end]
    ensures end <= start || |data| <= start ==> r == []
    ensures start < end && start < |data| ==> r == data[start..if end < |data| then end else |data|]
  {
    var lo := if start < |data| then start else |data|;
    var hi := if end < |data| then end else |data|;
    if hi <= lo then [] else data[lo..hi]
  }

  /**
   * `_NodeWrapper.text`: the bytes the node spans, or, with a non-empty
   * path, the bytes the node at the end of the path spans.
   */
  function Text(wrapper: Wrapper, path: seq<PathStep>): (r: Result<seq<bv8>>)
    ensures r.Ok? <==> Walk(wrapper.node, path).Ok?
    ensures r.Ok? ==> r.value == Slice(wrapper.data, Walk(wrapper.node, path).value.startByte,
                                       Walk(wrapper.node, path).value.endByte)
  {
    if path != [] then
      match Walk(wrapper.node, path)
      case Err(e) => Err(e)
      case Ok(node) => Ok(Slice(wrapper.data, node.startByte, node.endByte))
    else
      Ok(Slice(wrapper.data, wrapper.node.startByte, wrapper.node.endByte))
  }
}
