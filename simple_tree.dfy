/**
 * The bucket of HashTable.py: an unbalanced binary search tree grown by an
 * iterative walk that attaches each new key as a leaf.
 *
 * The `Node` objects live in an arena: `nodes[i]` is the i-th node ever
 * created in this tree and its `left`/`right` links are arena positions.
 * A node is only ever linked below a node created before it, so every link
 * points forward. Ghost state records each node's parent and the open
 * interval of keys its position admits (the bounds a search walk has
 * established when it reaches that node).
 */
module SimpleTree {
  import opened Wrappers
  import opened LexOrder

  datatype Node<V> = Node(key: string, value: V, left: Option<nat>, right: Option<nat>)

  /** `k` lies strictly between the bounds (an absent bound is no bound). */
  predicate InBounds(k: string, lower: Option<string>, upper: Option<string>)
  {
    (lower.Some? ==> Less(lower.value, k)) && (upper.Some? ==> Less(k, upper.value))
  }

  /** Every link points to a later node of the arena; the two links of a
      node differ. */
  predicate Linked<V>(nodes: seq<Node<V>>)
  {
    forall i :: 0 <= i < |nodes| ==>
      (nodes[i].left.Some? ==> i < nodes[i].left.value < |nodes|) &&
      (nodes[i].right.Some? ==> i < nodes[i].right.value < |nodes|) &&
      (nodes[i].left.Some? ==> nodes[i].left != nodes[i].right)
  }

  /**
   * The arena is a search tree rooted at node 0: each node other than the
   * root hangs below its parent, on the left with the parent's key as upper
   * bound or on the right with it as lower bound, and each key lies within
   * its node's bounds.
   */
  ghost predicate ArenaValid<V>(nodes: seq<Node<V>>, lower: seq<Option<string>>,
                                upper: seq<Option<string>>, parent: seq<nat>)
  {
    Linked(nodes) && |lower| == |upper| == |parent| == |nodes| &&
    (|nodes| > 0 ==> lower[0].None? && upper[0].None?) &&
    (forall i :: 0 <= i < |nodes| ==> InBounds(nodes[i].key, lower[i], upper[i])) &&
    (forall i :: 0 < i < |nodes| ==> parent[i] < i && HangsBelow(nodes, lower, upper, parent[i], i)) &&
    ParentLinks(nodes, parent)
  }

  /** Each child records the node it hangs from as its parent. */
  ghost predicate ParentLinks<V>(nodes: seq<Node<V>>, parent: seq<nat>)
    requires Linked(nodes) && |parent| == |nodes|
  {
    (forall i :: 0 <= i < |nodes| && nodes[i].left.Some? ==> parent[nodes[i].left.value] == i) &&
    (forall i :: 0 <= i < |nodes| && nodes[i].right.Some? ==> parent[nodes[i].right.value] == i)
  }

  /** Node `c` is a child of node `p`, with the bounds that side implies. */
  ghost predicate HangsBelow<V>(nodes: seq<Node<V>>, lower: seq<Option<string>>,
                                upper: seq<Option<string>>, p: nat, c: nat)
    requires p < |nodes| && |lower| == |upper| == |nodes| && c < |nodes|
  {
    (nodes[p].left == Some(c) && lower[c] == lower[p] && upper[c] == Some(nodes[p].key)) ||
    (nodes[p].right == Some(c) && lower[c] == Some(nodes[p].key) && upper[c] == upper[p])
  }

  /** `search(node, key)`: the arena position of the node found, if any. */
  function Search<V>(nodes: seq<Node<V>>, t: Option<nat>, key: string): (r: Option<nat>)
    requires Linked(nodes)
    requires t.Some? ==> t.value < |nodes|
    ensures r.Some? ==> r.value < |nodes| && nodes[r.value].key == key
    decreases if t.Some? then |nodes| - t.value else 0
  {
    match t
    case None => None
    case Some(i) =>
      if nodes[i].key == key then Some(i)
      else if Less(nodes[i].key, key) then Search(nodes, nodes[i].right, key)
      // otherwise `nodeKey > key`, since string order is total
      else Search(nodes, nodes[i].left, key)
  }

  /** What `getTree` returns: `None`, or the triple of a node and its subtrees. */
  datatype Shape<V> = Leaf | Triple(key: string, value: V, left: Shape<V>, right: Shape<V>)

  /** `getTree(node)`: the preorder triple of the subtree at `t`. */
  function GetTree<V>(nodes: seq<Node<V>>, t: Option<nat>): (s: Shape<V>)
    requires Linked(nodes)
    requires t.Some? ==> t.value < |nodes|
    ensures s.Leaf? <==> t.None?
    ensures t.Some? ==> s.key == nodes[t.value].key && s.value == nodes[t.value].value
    decreases if t.Some? then |nodes| - t.value else 0
  {
    match t
    case None => Leaf
    case Some(i) =>
      Triple(nodes[i].key, nodes[i].value, GetTree(nodes, nodes[i].left), GetTree(nodes, nodes[i].right))
  }

  /** The keys of a shape read left to right (in order). */
  function ShapeKeys<V>(s: Shape<V>): seq<string>
  {
    match s
    case Leaf => []
    case Triple(k, _, l, r) => ShapeKeys(l) + [k] + ShapeKeys(r)
  }

  /** The key and value labels of a shape read left to right, aligned with
      its keys. */
  function ShapeEntries<V>(s: Shape<V>): (es: seq<(string, V)>)
    ensures |es| == |ShapeKeys(s)|
    ensures forall i :: 0 <= i < |es| ==> es[i].0 == ShapeKeys(s)[i]
  {
    match s
    case Leaf => []
    case Triple(k, v, l, r) => ShapeEntries(l) + [(k, v)] + ShapeEntries(r)
  }

  ghost predicate Increasing(ks: seq<string>)
  {
    forall i, j :: 0 <= i < j < |ks| ==> Less(ks[i], ks[j])
  }

  /** Node `a` lies on the path from the root to node `j` (or is `j`). */
  ghost predicate Ancestor(parent: seq<nat>, a: nat, j: nat)
    decreases j
  {
    a == j || (0 < j < |parent| && parent[j] < j && Ancestor(parent, a, parent[j]))
  }

  // ---------------------------------------------------------------------
  // Search on a valid arena
  // ---------------------------------------------------------------------

  lemma BoundsOfParent<V>(nodes: seq<Node<V>>, lower: seq<Option<string>>,
                          upper: seq<Option<string>>, parent: seq<nat>, j: nat, k: string)
    requires ArenaValid(nodes, lower, upper, parent)
    requires 0 < j < |nodes| && InBounds(k, lower[j], upper[j])
    ensures InBounds(k, lower[parent[j]], upper[parent[j]])
  {
    var p := parent[j];
    assert InBounds(nodes[p].key, lower[p], upper[p]);
    if nodes[p].left == Some(j) && lower[j] == lower[p] && upper[j] == Some(nodes[p].key) {
      if upper[p].Some? {
        LessTransitive(k, nodes[p].key, upper[p].value);
      }
    } else {
      if lower[p].Some? {
        LessTransitive(lower[p].value, nodes[p].key, k);
      }
    }
  }

  /** A key within node `j`'s bounds is searched from any ancestor of `j`
      exactly as from `j` itself: the walk passes through `j`. */
  lemma {:induction false} SearchPassesThrough<V>(nodes: seq<Node<V>>, lower: seq<Option<string>>,
                                                  upper: seq<Option<string>>, parent: seq<nat>,
                                                  a: nat, j: nat, k: string)
    requires ArenaValid(nodes, lower, upper, parent)
    requires a < |nodes| && j < |nodes| && Ancestor(parent, a, j)
    requires InBounds(k, lower[j], upper[j])
    ensures Search(nodes, Some(a), k) == Search(nodes, Some(j), k)
    decreases j
  {
    if a != j {
      var p := parent[j];
      BoundsOfParent(nodes, lower, upper, parent, j, k);
      SearchPassesThrough(nodes, lower, upper, parent, a, p, k);
      if nodes[p].left == Some(j) && upper[j] == Some(nodes[p].key) {
        LessAsymmetric(k, nodes[p].key);
        LessIrreflexive(k);
      } else {
        LessIrreflexive(k);
      }
    }
  }

  lemma {:induction false} RootIsAncestor<V>(nodes: seq<Node<V>>, lower: seq<Option<string>>,
                                             upper: seq<Option<string>>, parent: seq<nat>, j: nat)
    requires ArenaValid(nodes, lower, upper, parent)
    requires j < |nodes|
    ensures Ancestor(parent, 0, j)
    decreases j
  {
    if j > 0 {
      RootIsAncestor(nodes, lower, upper, parent, parent[j]);
    }
  }

  /**
   * On a valid arena, `search` from the root finds every node by its key:
   * it returns `None` exactly when no node carries the key, so no key is
   * stored twice.
   */
  lemma SearchFinds<V>(nodes: seq<Node<V>>, lower: seq<Option<string>>,
                       upper: seq<Option<string>>, parent: seq<nat>, j: nat)
    requires ArenaValid(nodes, lower, upper, parent)
    requires j < |nodes|
    ensures Search(nodes, Some(0), nodes[j].key) == Some(j)
  {
    RootIsAncestor(nodes, lower, upper, parent, j);
    SearchPassesThrough(nodes, lower, upper, parent, 0, j, nodes[j].key);
  }

  lemma SearchAbsent<V>(nodes: seq<Node<V>>, lower: seq<Option<string>>,
                        upper: seq<Option<string>>, parent: seq<nat>, key: string)
    requires ArenaValid(nodes, lower, upper, parent) && |nodes| > 0
    ensures Search(nodes, Some(0), key).None? <==> forall j :: 0 <= j < |nodes| ==> nodes[j].key != key
  {
    if Search(nodes, Some(0), key).None? {
      forall j | 0 <= j < |nodes| ensures nodes[j].key != key {
        SearchFinds(nodes, lower, upper, parent, j);
      }
    }
  }

  // ---------------------------------------------------------------------
  // getTree on a valid arena
  // ---------------------------------------------------------------------

  /** Every key in the dump of node `i`'s subtree lies within `i`'s bounds. */
  lemma {:induction false} ShapeWithinBounds<V>(nodes: seq<Node<V>>, lower: seq<Option<string>>,
                                                upper: seq<Option<string>>, parent: seq<nat>, i: nat)
    requires ArenaValid(nodes, lower, upper, parent) && i < |nodes|
    ensures forall k :: k in ShapeKeys(GetTree(nodes, Some(i))) ==> InBounds(k, lower[i], upper[i])
    ensures Increasing(ShapeKeys(GetTree(nodes, Some(i))))
    decreases |nodes| - i
  {
    var l, r := nodes[i].left, nodes[i].right;
    var ls, rs := ShapeKeys(GetTree(nodes, l)), ShapeKeys(GetTree(nodes, r));
    var ki := nodes[i].key;
    assert ShapeKeys(GetTree(nodes, Some(i))) == ls + [ki] + rs;
    if l.Some? {
      var c := l.value;
      ChildBounds(nodes, lower, upper, parent, i, c);
      ShapeWithinBounds(nodes, lower, upper, parent, c);
    }
    if r.Some? {
      var c := r.value;
      ChildBounds(nodes, lower, upper, parent, i, c);
      ShapeWithinBounds(nodes, lower, upper, parent, c);
    }
    // keys on the left are below `ki`, keys on the right above it
    assert forall k :: k in ls ==> Less(k, ki) && InBounds(k, lower[i], upper[i]);
    assert forall k :: k in rs ==> Less(ki, k) && InBounds(k, lower[i], upper[i]);
    JoinIncreasing(ls, ki, rs);
  }

  lemma JoinIncreasing(ls: seq<string>, k: string, rs: seq<string>)
    requires Increasing(ls) && Increasing(rs)
    requires forall x :: x in ls ==> Less(x, k)
    requires forall y :: y in rs ==> Less(k, y)
    ensures Increasing(ls + [k] + rs)
  {
    var s := ls + [k] + rs;
    forall x, y | 0 <= x < y < |s| ensures Less(s[x], s[y]) {
      if x < |ls| && y > |ls| {
        assert s[x] in ls && s[y] in rs;
        LessTransitive(s[x], k, s[y]);
      } else if x < |ls| && y < |ls| {
        assert s[x] == ls[x] && s[y] == ls[y];
      } else if x > |ls| {
        assert s[x] == rs[x - |ls| - 1] && s[y] == rs[y - |ls| - 1];
      } else if x == |ls| {
        assert s[y] in rs;
      } else {
        assert s[x] in ls;
      }
    }
  }

  /** The bounds of a child are those of its parent narrowed by the parent's key. */
  lemma ChildBounds<V>(nodes: seq<Node<V>>, lower: seq<Option<string>>,
                       upper: seq<Option<string>>, parent: seq<nat>, i: nat, c: nat)
    requires ArenaValid(nodes, lower, upper, parent) && i < c < |nodes|
    requires nodes[i].left == Some(c) || nodes[i].right == Some(c)
    ensures nodes[i].left == Some(c) ==> forall k :: InBounds(k, lower[c], upper[c]) ==>
      Less(k, nodes[i].key) && InBounds(k, lower[i], upper[i])
    ensures nodes[i].right == Some(c) ==> forall k :: InBounds(k, lower[c], upper[c]) ==>
      Less(nodes[i].key, k) && InBounds(k, lower[i], upper[i])
  {
    forall k | InBounds(k, lower[c], upper[c]) ensures InBounds(k, lower[i], upper[i]) {
      BoundsOfParent(nodes, lower, upper, parent, c, k);
    }
  }

  /**
   * `getTree(root)` of a valid non-empty arena: read in order, its keys
   * strictly increase.
   */
  lemma GetTreeSorted<V>(nodes: seq<Node<V>>, lower: seq<Option<string>>,
                         upper: seq<Option<string>>, parent: seq<nat>)
    requires ArenaValid(nodes, lower, upper, parent) && |nodes| > 0
    ensures Increasing(ShapeKeys(GetTree(nodes, Some(0))))
  {
    ShapeWithinBounds(nodes, lower, upper, parent, 0);
  }

  /** The dump of node `j`'s subtree is part of the dump of any ancestor's. */
  lemma {:induction false} SubtreeInDump<V>(nodes: seq<Node<V>>, lower: seq<Option<string>>,
                                            upper: seq<Option<string>>, parent: seq<nat>,
                                            a: nat, j: nat)
    requires ArenaValid(nodes, lower, upper, parent)
    requires a < |nodes| && j < |nodes| && Ancestor(parent, a, j)
    ensures forall e :: e in ShapeEntries(GetTree(nodes, Some(j))) ==> e in ShapeEntries(GetTree(nodes, Some(a)))
    decreases j
  {
    if a != j {
      var p := parent[j];
      SubtreeInDump(nodes, lower, upper, parent, a, p);
      assert HangsBelow(nodes, lower, upper, p, j);
      assert ShapeEntries(GetTree(nodes, Some(p))) ==
        ShapeEntries(GetTree(nodes, nodes[p].left)) + [(nodes[p].key, nodes[p].value)] +
        ShapeEntries(GetTree(nodes, nodes[p].right));
    }
  }

  /** Every label in the dump of node `i`'s subtree is the key and value of
      a node. */
  lemma {:induction false} DumpHasNodeEntries<V>(nodes: seq<Node<V>>, i: nat)
    requires Linked(nodes) && i < |nodes|
    ensures forall e :: e in ShapeEntries(GetTree(nodes, Some(i))) ==>
      exists j :: i <= j < |nodes| && (nodes[j].key, nodes[j].value) == e
    decreases |nodes| - i
  {
    var l, r := nodes[i].left, nodes[i].right;
    assert ShapeEntries(GetTree(nodes, Some(i))) ==
      ShapeEntries(GetTree(nodes, l)) + [(nodes[i].key, nodes[i].value)] + ShapeEntries(GetTree(nodes, r));
    if l.Some? {
      DumpHasNodeEntries(nodes, l.value);
    }
    if r.Some? {
      DumpHasNodeEntries(nodes, r.value);
    }
  }

  /** `getTree(root)` labels every node of the tree with its key and value,
      and has no other label; read in order its keys increase, so each node
      appears exactly once. */
  lemma GetTreeComplete<V>(nodes: seq<Node<V>>, lower: seq<Option<string>>,
                           upper: seq<Option<string>>, parent: seq<nat>)
    requires ArenaValid(nodes, lower, upper, parent) && |nodes| > 0
    ensures forall j :: 0 <= j < |nodes| ==>
      (nodes[j].key, nodes[j].value) in ShapeEntries(GetTree(nodes, Some(0)))
    ensures forall e :: e in ShapeEntries(GetTree(nodes, Some(0))) ==>
      exists j :: 0 <= j < |nodes| && (nodes[j].key, nodes[j].value) == e
  {
    forall j | 0 <= j < |nodes| ensures (nodes[j].key, nodes[j].value) in ShapeEntries(GetTree(nodes, Some(0))) {
      RootIsAncestor(nodes, lower, upper, parent, j);
      SubtreeInDump(nodes, lower, upper, parent, 0, j);
      assert ShapeEntries(GetTree(nodes, Some(j))) ==
        ShapeEntries(GetTree(nodes, nodes[j].left)) + [(nodes[j].key, nodes[j].value)] +
        ShapeEntries(GetTree(nodes, nodes[j].right));
    }
    DumpHasNodeEntries(nodes, 0);
  }

  // ---------------------------------------------------------------------
  // Attaching a leaf
  // ---------------------------------------------------------------------

  /** The arena after linking a new leaf below node `p`, on the side `onLeft` says. */
  function Attached<V>(nodes: seq<Node<V>>, p: nat, onLeft: bool, key: string, value: V): (r: seq<Node<V>>)
    requires p < |nodes|
    ensures |r| == |nodes| + 1
  {
    var n := |nodes|;
    var linked := if onLeft then nodes[p].(left := Some(n)) else nodes[p].(right := Some(n));
    nodes[p := linked] + [Node(key, value, None, None)]
  }

  /** The side of `node` that `onLeft` names has no child yet. */
  predicate FreeSide<V>(node: Node<V>, onLeft: bool)
  {
    if onLeft then node.left.None? else node.right.None?
  }

  /** `after` is `before` with a new last leaf linked on side `onLeft` of node `p`. */
  ghost predicate LinkedAt<V>(before: seq<Node<V>>, after: seq<Node<V>>, p: nat, onLeft: bool,
                              key: string, value: V)
  {
    var n := |before|;
    p < n && |after| == n + 1 && after[n] == Node(key, value, None, None) &&
    (forall i :: 0 <= i < n && i != p ==> after[i] == before[i]) &&
    after[p].key == before[p].key && after[p].value == before[p].value &&
    (if onLeft then after[p].left == Some(n) && after[p].right == before[p].right
     else after[p].right == Some(n) && after[p].left == before[p].left)
  }

  lemma AttachedLinkedAt<V>(nodes: seq<Node<V>>, p: nat, onLeft: bool, key: string, value: V)
    requires p < |nodes|
    ensures LinkedAt(nodes, Attached(nodes, p, onLeft, key, value), p, onLeft, key, value)
  {
  }

  /** A new leaf hung on a free side of a node whose bounds admit its key,
      on the correct side of that node's key, keeps the arena valid. */
  lemma AttachValid<V>(nodes: seq<Node<V>>, lower: seq<Option<string>>,
                       upper: seq<Option<string>>, parent: seq<nat>,
                       p: nat, onLeft: bool, key: string, value: V)
    requires ArenaValid(nodes, lower, upper, parent) && p < |nodes|
    requires InBounds(key, lower[p], upper[p]) && FreeSide(nodes[p], onLeft)
    requires if onLeft then Less(key, nodes[p].key) else Less(nodes[p].key, key)
    ensures ArenaValid(Attached(nodes, p, onLeft, key, value),
                       lower + [if onLeft then lower[p] else Some(nodes[p].key)],
                       upper + [if onLeft then Some(nodes[p].key) else upper[p]],
                       parent + [p])
  {
    var nodes' := Attached(nodes, p, onLeft, key, value);
    var lower' := lower + [if onLeft then lower[p] else Some(nodes[p].key)];
    var upper' := upper + [if onLeft then Some(nodes[p].key) else upper[p]];
    AttachLinked(nodes, p, onLeft, key, value);
    AttachedLinkedAt(nodes, p, onLeft, key, value);
    AttachKeysInBounds(nodes, nodes', lower, upper, parent, p, onLeft, key, value);
    AttachHangs(nodes, nodes', lower, upper, parent, p, onLeft, key, value);
    AttachParents(nodes, nodes', parent, p, onLeft, key, value);
  }

  lemma AttachKeysInBounds<V>(nodes: seq<Node<V>>, nodes': seq<Node<V>>, lower: seq<Option<string>>,
                              upper: seq<Option<string>>, parent: seq<nat>,
                              p: nat, onLeft: bool, key: string, value: V)
    requires ArenaValid(nodes, lower, upper, parent) && LinkedAt(nodes, nodes', p, onLeft, key, value)
    requires InBounds(key, lower[p], upper[p])
    requires if onLeft then Less(key, nodes[p].key) else Less(nodes[p].key, key)
    ensures var lower' := lower + [if onLeft then lower[p] else Some(nodes[p].key)];
            var upper' := upper + [if onLeft then Some(nodes[p].key) else upper[p]];
            forall i :: 0 <= i < |nodes'| ==> InBounds(nodes'[i].key, lower'[i], upper'[i])
  {
    var n := |nodes|;
    var lower' := lower + [if onLeft then lower[p] else Some(nodes[p].key)];
    var upper' := upper + [if onLeft then Some(nodes[p].key) else upper[p]];
    forall i | 0 <= i < |nodes'| ensures InBounds(nodes'[i].key, lower'[i], upper'[i]) {
      if i < n {
        assert nodes'[i].key == nodes[i].key && lower'[i] == lower[i] && upper'[i] == upper[i];
      }
    }
  }

  lemma AttachHangs<V>(nodes: seq<Node<V>>, nodes': seq<Node<V>>, lower: seq<Option<string>>,
                       upper: seq<Option<string>>, parent: seq<nat>,
                       p: nat, onLeft: bool, key: string, value: V)
    requires ArenaValid(nodes, lower, upper, parent) && LinkedAt(nodes, nodes', p, onLeft, key, value)
    requires FreeSide(nodes[p], onLeft)
    ensures var lower' := lower + [if onLeft then lower[p] else Some(nodes[p].key)];
            var upper' := upper + [if onLeft then Some(nodes[p].key) else upper[p]];
            var parent' := parent + [p];
            forall i :: 0 < i < |nodes'| ==> parent'[i] < i && HangsBelow(nodes', lower', upper', parent'[i], i)
  {
    var n := |nodes|;
    var lower' := lower + [if onLeft then lower[p] else Some(nodes[p].key)];
    var upper' := upper + [if onLeft then Some(nodes[p].key) else upper[p]];
    var parent' := parent + [p];
    forall i | 0 < i < |nodes'|
      ensures parent'[i] < i && HangsBelow(nodes', lower', upper', parent'[i], i)
    {
      if i < n {
        var q := parent[i];
        assert HangsBelow(nodes, lower, upper, q, i);
        assert lower'[i] == lower[i] && upper'[i] == upper[i] && lower'[q] == lower[q] && upper'[q] == upper[q];
        if q == p {
          if onLeft {
            assert nodes'[p].right == Some(i);
          } else {
            assert nodes'[p].left == Some(i);
          }
        } else {
          assert nodes'[q] == nodes[q];
        }
      } else {
        assert parent'[i] == p && lower'[i] == (if onLeft then lower[p] else Some(nodes[p].key));
      }
    }
  }

  lemma AttachParents<V>(nodes: seq<Node<V>>, nodes': seq<Node<V>>, parent: seq<nat>,
                         p: nat, onLeft: bool, key: string, value: V)
    requires Linked(nodes) && |parent| == |nodes| && ParentLinks(nodes, parent)
    requires LinkedAt(nodes, nodes', p, onLeft, key, value) && Linked(nodes')
    ensures ParentLinks(nodes', parent + [p])
  {
    var parent' := parent + [p];
    forall i | 0 <= i < |nodes'| && nodes'[i].left.Some? ensures parent'[nodes'[i].left.value] == i {
      ParentOfChild(nodes, nodes', parent, p, onLeft, key, value, i, true);
    }
    forall i | 0 <= i < |nodes'| && nodes'[i].right.Some? ensures parent'[nodes'[i].right.value] == i {
      ParentOfChild(nodes, nodes', parent, p, onLeft, key, value, i, false);
    }
  }

  /** The child on side `left` of node `i` after the attach has `i` as parent. */
  lemma ParentOfChild<V>(nodes: seq<Node<V>>, nodes': seq<Node<V>>, parent: seq<nat>,
                         p: nat, onLeft: bool, key: string, value: V, i: nat, left: bool)
    requires Linked(nodes) && |parent| == |nodes| && ParentLinks(nodes, parent)
    requires LinkedAt(nodes, nodes', p, onLeft, key, value)
    requires i < |nodes'|
    requires (if left then nodes'[i].left else nodes'[i].right).Some?
    ensures var c := (if left then nodes'[i].left else nodes'[i].right).value;
            c < |nodes'| && (parent + [p])[c] == i
  {
    var n := |nodes|;
    if i == n {
      assert false;
    } else if i == p && left == onLeft {
      assert (if left then nodes'[i].left else nodes'[i].right) == Some(n);
    } else {
      assert (if left then nodes'[i].left else nodes'[i].right) == (if left then nodes[i].left else nodes[i].right);
    }
  }

  lemma AttachLinked<V>(nodes: seq<Node<V>>, p: nat, onLeft: bool, key: string, value: V)
    requires Linked(nodes) && p < |nodes| && FreeSide(nodes[p], onLeft)
    ensures Linked(Attached(nodes, p, onLeft, key, value))
    ensures forall i :: 0 <= i < |nodes| ==>
      Attached(nodes, p, onLeft, key, value)[i].key == nodes[i].key &&
      Attached(nodes, p, onLeft, key, value)[i].value == nodes[i].value
  {
    var n := |nodes|;
    var nodes' := Attached(nodes, p, onLeft, key, value);
    forall i | 0 <= i < |nodes'|
      ensures (nodes'[i].left.Some? ==> i < nodes'[i].left.value < |nodes'|) &&
              (nodes'[i].right.Some? ==> i < nodes'[i].right.value < |nodes'|) &&
              (nodes'[i].left.Some? ==> nodes'[i].left != nodes'[i].right)
    {
      if i != p && i < n {
        assert nodes'[i] == nodes[i];
      }
    }
  }

  /** After the attach, `search` from the root finds the new key's leaf and
      finds every other key where it found it before. */
  lemma AttachSearch<V>(nodes: seq<Node<V>>, lower: seq<Option<string>>,
                        upper: seq<Option<string>>, parent: seq<nat>,
                        p: nat, onLeft: bool, key: string, value: V, q: string)
    requires ArenaValid(nodes, lower, upper, parent) && p < |nodes|
    requires forall j :: 0 <= j < |nodes| ==> nodes[j].key != key
    requires InBounds(key, lower[p], upper[p]) && FreeSide(nodes[p], onLeft)
    requires if onLeft then Less(key, nodes[p].key) else Less(nodes[p].key, key)
    ensures Linked(Attached(nodes, p, onLeft, key, value))
    ensures Search(Attached(nodes, p, onLeft, key, value), Some(0), q) ==
      if q == key then Some(|nodes|) else Search(nodes, Some(0), q)
  {
    var nodes' := Attached(nodes, p, onLeft, key, value);
    var lower' := lower + [if onLeft then lower[p] else Some(nodes[p].key)];
    var upper' := upper + [if onLeft then Some(nodes[p].key) else upper[p]];
    var parent' := parent + [p];
    AttachValid(nodes, lower, upper, parent, p, onLeft, key, value);
    AttachLinked(nodes, p, onLeft, key, value);
    if q == key {
      SearchFinds(nodes', lower', upper', parent', |nodes|);
    } else if j :| 0 <= j < |nodes| && nodes[j].key == q {
      SearchFinds(nodes, lower, upper, parent, j);
      SearchFinds(nodes', lower', upper', parent', j);
    } else {
      SearchAbsent(nodes, lower, upper, parent, q);
      SearchAbsent(nodes', lower', upper', parent', q);
    }
  }

  /** Overwriting a node's value leaves every search path as it was. */
  lemma {:induction false} SearchIgnoresValues<V>(nodes: seq<Node<V>>, i: nat, value: V,
                                                  t: Option<nat>, q: string)
    requires Linked(nodes) && i < |nodes| && (t.Some? ==> t.value < |nodes|)
    ensures Linked(nodes[i := nodes[i].(value := value)])
    ensures Search(nodes[i := nodes[i].(value := value)], t, q) == Search(nodes, t, q)
    decreases if t.Some? then |nodes| - t.value else 0
  {
    var nodes' := nodes[i := nodes[i].(value := value)];
    assert forall j :: 0 <= j < |nodes| ==>
      nodes'[j].key == nodes[j].key && nodes'[j].left == nodes[j].left && nodes'[j].right == nodes[j].right;
    match t
    case None =>
    case Some(j) =>
      if nodes[j].key != q {
        if Less(nodes[j].key, q) {
          SearchIgnoresValues(nodes, i, value, nodes[j].right, q);
        } else {
          SearchIgnoresValues(nodes, i, value, nodes[j].left, q);
        }
      }
  }

  lemma ArenaIgnoresValues<V>(nodes: seq<Node<V>>, lower: seq<Option<string>>,
                              upper: seq<Option<string>>, parent: seq<nat>, i: nat, value: V)
    requires ArenaValid(nodes, lower, upper, parent) && i < |nodes|
    ensures ArenaValid(nodes[i := nodes[i].(value := value)], lower, upper, parent)
  {
    var nodes' := nodes[i := nodes[i].(value := value)];
    assert SameSkeleton(nodes, nodes');
    SkeletonLinked(nodes, nodes');
    SkeletonHangs(nodes, nodes', lower, upper, parent);
    SkeletonParents(nodes, nodes', parent);
    assert forall j :: 0 <= j < |nodes'| ==> nodes'[j].key == nodes[j].key;
  }

  /** The two arenas agree on every key and link (values may differ). */
  ghost predicate SameSkeleton<V>(a: seq<Node<V>>, b: seq<Node<V>>)
  {
    |a| == |b| &&
    forall j :: 0 <= j < |a| ==> a[j].key == b[j].key && a[j].left == b[j].left && a[j].right == b[j].right
  }

  lemma SkeletonLinked<V>(a: seq<Node<V>>, b: seq<Node<V>>)
    requires Linked(a) && SameSkeleton(a, b)
    ensures Linked(b)
  {
  }

  lemma SkeletonHangs<V>(a: seq<Node<V>>, b: seq<Node<V>>, lower: seq<Option<string>>,
                         upper: seq<Option<string>>, parent: seq<nat>)
    requires SameSkeleton(a, b) && |lower| == |upper| == |parent| == |a|
    requires forall c :: 0 < c < |a| ==> parent[c] < c && HangsBelow(a, lower, upper, parent[c], c)
    ensures forall c :: 0 < c < |b| ==> parent[c] < c && HangsBelow(b, lower, upper, parent[c], c)
  {
    forall c | 0 < c < |b| ensures parent[c] < c && HangsBelow(b, lower, upper, parent[c], c) {
      assert HangsBelow(a, lower, upper, parent[c], c);
    }
  }

  lemma SkeletonParents<V>(a: seq<Node<V>>, b: seq<Node<V>>, parent: seq<nat>)
    requires Linked(a) && Linked(b) && SameSkeleton(a, b) && |parent| == |a|
    requires ParentLinks(a, parent)
    ensures ParentLinks(b, parent)
  {
  }

  // ---------------------------------------------------------------------
  // The bucket object
  // ---------------------------------------------------------------------

  /** `BinaryTree` of HashTable.py. */
  class BinaryTree<V> {
    var root: Option<nat>
    var nodes: seq<Node<V>>
    ghost var lower: seq<Option<string>>
    ghost var upper: seq<Option<string>>
    ghost var parent: seq<nat>

    /** The arena is a valid search tree and the root is its first node. */
    ghost predicate Valid()
      reads this
    {
      ArenaValid(nodes, lower, upper, parent) && root == (if nodes == [] then None else Some(0))
    }

    /** The value `search(root, key)` finds. */
    ghost function Lookup(key: string): Option<V>
      reads this
      requires Valid()
    {
      match Search(nodes, root, key)
      case None => None
      case Some(i) => Some(nodes[i].value)
    }

    constructor ()
      ensures Valid() && root.None? && nodes == []
      ensures forall key :: Lookup(key).None?
    {
      root := None;
      nodes := [];
      lower, upper, parent := [], [], [];
    }

    /**
     * `insert(string, value)`: an empty tree gets the node as its root;
     * otherwise the walk goes left on a smaller key and right on a larger
     * one until the side it would take is free, and links the new node
     * there. The key must be absent: for an equal key neither comparison
     * holds and the source's `while True` loop never ends.
     */
    method Insert(key: string, value: V)
      requires Valid()
      requires forall j :: 0 <= j < |nodes| ==> nodes[j].key != key
      modifies this
      ensures Valid()
      ensures forall q :: Lookup(q) == if q == key then Some(value) else old(Lookup(q))
      ensures |nodes| == |old(nodes)| + 1 && nodes[|old(nodes)|] == Node(key, value, None, None)
      ensures old(nodes) == [] ==> nodes == [Node(key, value, None, None)]
      ensures old(nodes) != [] ==>
        exists p: nat, onLeft: bool :: p < |old(nodes)| && FreeSide(old(nodes)[p], onLeft) &&
          nodes == Attached(old(nodes), p, onLeft, key, value)
    {
      if root.None? {
        root := Some(0);
        nodes := [Node(key, value, None, None)];
        lower, upper, parent := [None], [None], [0];
        return;
      }
      var current: nat := root.value;
      while true
        invariant current < |nodes| && InBounds(key, lower[current], upper[current])
        invariant Valid() && nodes == old(nodes) && root == old(root)
        invariant lower == old(lower) && upper == old(upper) && parent == old(parent)
        decreases |nodes| - current
      {
        if Less(key, nodes[current].key) {
          if nodes[current].left.Some? {
            var c := nodes[current].left.value;
            assert HangsBelow(nodes, lower, upper, parent[c], c);
            current := c;
          } else {
            AttachLeaf(current, true, key, value);
            break;
          }
        } else {
          // the source tests `string > current.getKey()` here; an equal key
          // is excluded by the precondition
          assert Less(nodes[current].key, key) by {
            LessTrichotomy(key, nodes[current].key);
          }
          if nodes[current].right.Some? {
            var c := nodes[current].right.value;
            assert HangsBelow(nodes, lower, upper, parent[c], c);
            current := c;
          } else {
            AttachLeaf(current, false, key, value);
            break;
          }
        }
      }
    }

    /** `current.left = Node(...)` or `current.right = Node(...)`. */
    method AttachLeaf(p: nat, onLeft: bool, key: string, value: V)
      requires Valid() && p < |nodes|
      requires forall j :: 0 <= j < |nodes| ==> nodes[j].key != key
      requires InBounds(key, lower[p], upper[p]) && FreeSide(nodes[p], onLeft)
      requires if onLeft then Less(key, nodes[p].key) else Less(nodes[p].key, key)
      modifies this
      ensures Valid()
      ensures FreeSide(old(nodes)[p], onLeft)
      ensures nodes == Attached(old(nodes), p, onLeft, key, value)
      ensures forall q :: Lookup(q) == if q == key then Some(value) else old(Lookup(q))
    {
      AttachValid(nodes, lower, upper, parent, p, onLeft, key, value);
      forall q ensures Search(Attached(nodes, p, onLeft, key, value), Some(0), q) ==
        if q == key then Some(|nodes|) else Search(nodes, Some(0), q)
      {
        AttachSearch(nodes, lower, upper, parent, p, onLeft, key, value, q);
      }
      lower := lower + [if onLeft then lower[p] else Some(nodes[p].key)];
      upper := upper + [if onLeft then Some(nodes[p].key) else upper[p]];
      parent := parent + [p];
      nodes := Attached(nodes, p, onLeft, key, value);
    }

    /** `Node.setValue`: overwrite the value of the node at arena position `i`. */
    method SetValue(i: nat, value: V)
      requires Valid() && i < |nodes|
      modifies this
      ensures Valid() && root == old(root)
      ensures nodes == old(nodes)[i := old(nodes)[i].(value := value)]
      ensures forall q :: Lookup(q) == if q == old(nodes)[i].key then Some(value) else old(Lookup(q))
    {
      ArenaIgnoresValues(nodes, lower, upper, parent, i, value);
      forall q ensures Search(nodes[i := nodes[i].(value := value)], root, q) == Search(nodes, root, q) {
        SearchIgnoresValues(nodes, i, value, root, q);
      }
      SearchFinds(nodes, lower, upper, parent, i);
      nodes := nodes[i := nodes[i].(value := value)];
    }
  }
}
