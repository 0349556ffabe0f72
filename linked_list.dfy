/**
 * The singly linked list of LinkedList.py: heap nodes chained by `next`,
 * with `start` and `end` pointers and an insert counter.
 *
 * The ghost `spine` is the sequence of nodes reachable from `start`. A node
 * that `remove` unlinks stays allocated and keeps its `next`; `end` may be
 * such a node, since `remove` never moves it.
 */
module LinkedList {
  import opened Wrappers

  /** Position of the first `k` in `ks`, if any. */
  function FirstIndex<K(==)>(ks: seq<K>, k: K): (r: Option<nat>)
    ensures r.None? <==> forall j :: 0 <= j < |ks| ==> ks[j] != k
    ensures r.Some? ==> r.value < |ks| && ks[r.value] == k &&
                        forall j :: 0 <= j < r.value ==> ks[j] != k
  {
    if ks == [] then None
    else if ks[0] == k then Some(0)
    else match FirstIndex(ks[1..], k)
      case None => None
      case Some(i) => Some(i + 1)
  }

  /** `s` without its element at position `i`. */
  function Without<T>(s: seq<T>, i: nat): (r: seq<T>)
    requires i < |s|
    ensures |r| == |s| - 1
    ensures forall j :: 0 <= j < i ==> r[j] == s[j]
    ensures forall j :: i <= j < |r| ==> r[j] == s[j + 1]
  {
    s[..i] + s[i + 1..]
  }

  class Node<K(==), D> {
    const key: K
    const data: D
    var next: Node?<K, D>

    constructor (key: K, data: D)
      ensures this.key == key && this.data == data && next == null
    {
      this.key := key;
      this.data := data;
      next := null;
    }
  }

  class LinkedList<K(==), D> {
    var start: Node?<K, D>
    var end: Node?<K, D>
    var count: nat
    ghost var spine: seq<Node<K, D>>
    ghost var Repr: set<object>

    /**
     * `spine` is a chain of distinct nodes from `start` ending in `null`.
     * `end` is `null` only before the first insert, and if it is on the
     * chain at all it is the chain's last node.
     */
    ghost predicate Valid()
      reads this, Repr
    {
      this in Repr &&
      (forall i :: 0 <= i < |spine| ==> spine[i] in Repr) &&
      (forall i, j :: 0 <= i < j < |spine| ==> spine[i] != spine[j]) &&
      start == (if spine == [] then null else spine[0]) &&
      (forall i :: 0 <= i < |spine| - 1 ==> spine[i].next == spine[i + 1]) &&
      (spine != [] ==> spine[|spine| - 1].next == null) &&
      (end != null ==> end in Repr) &&
      (end == null ==> spine == []) &&
      (forall i :: 0 <= i < |spine| && spine[i] == end ==> i == |spine| - 1)
    }

    /** The list as the evidently intended invariant has it: `end` is the
        last node and `count` the number of nodes. */
    ghost predicate Tidy()
      reads this, Repr
    {
      Valid() && end == (if spine == [] then null else spine[|spine| - 1]) && count == |spine|
    }

    /** The keys met walking from `start`. */
    ghost function Keys(): (ks: seq<K>)
      reads this
      ensures |ks| == |spine| && forall i :: 0 <= i < |spine| ==> ks[i] == spine[i].key
    {
      seq(|spine|, i requires 0 <= i < |spine| reads this => spine[i].key)
    }

    /** `__init__`: no nodes, no `start`, no `end`, `count` zero. */
    constructor ()
      ensures Tidy() && fresh(Repr)
      ensures start == null && end == null && count == 0 && spine == []
    {
      start := null;
      end := null;
      count := 0;
      spine := [];
      Repr := {this};
    }

    /**
     * `insert(key, data)`: a new node becomes `end` and, on an empty chain,
     * `start`; the old `end` (if any) links to it. When the old `end` has
     * been unlinked by `remove` while the chain is not empty, the new node
     * hangs off that detached node and the chain does not grow.
     */
    method Insert(key: K, data: D)
      requires Valid()
      modifies this, end
      ensures Valid() && fresh(Repr - old(Repr))
      ensures fresh(end) && end.key == key && end.data == data && end.next == null
      ensures old(end) != null ==> old(end).next == end
      ensures count == old(count) + 1
      ensures old(spine) == [] ==> spine == [end]
      ensures old(spine) != [] && old(end) == old(spine)[|old(spine)| - 1] ==> spine == old(spine) + [end]
      ensures old(spine) != [] && old(end) != old(spine)[|old(spine)| - 1] ==> spine == old(spine)
      ensures old(Tidy()) ==> Tidy() && spine == old(spine) + [end]
    {
      var node := new Node(key, data);
      ghost var linked := spine == [] || end == spine[|spine| - 1];
      if start == null {
        start := node;
      }
      if end != null {
        end.next := node;
      }
      end := node;
      count := count + 1;
      ghost var s := spine;
      if linked {
        spine := spine + [node];
      }
      Repr := Repr + {node};
      forall j | 0 <= j < |spine| ensures spine[j].next == if j + 1 < |spine| then spine[j + 1] else null {
        if j < |s| {
          assert spine[j] == s[j];
          if j + 1 < |s| {
            assert s[j] != old(end) && s[j].next == old(s[j].next);
          } else if !linked {
            assert s[j] != old(end);
          }
        }
      }
    }

    /** `search(key)`: the first node on the chain with that key, else `null`. */
    method Search(key: K) returns (r: Node?<K, D>)
      requires Valid()
      ensures FirstIndex(Keys(), key).None? ==> r == null
      ensures FirstIndex(Keys(), key).Some? ==> r == spine[FirstIndex(Keys(), key).value]
    {
      var node := start;
      ghost var i := 0;
      while node != null
        invariant 0 <= i <= |spine|
        invariant node == if i < |spine| then spine[i] else null
        invariant forall j :: 0 <= j < i ==> spine[j].key != key
        decreases |spine| - i
      {
        if node.key == key {
          return node;
        }
        node := node.next;
        i := i + 1;
      }
      return null;
    }

    /**
     * `remove(key)`: unlinks and returns the first node with that key, or
     * returns `null` and changes nothing. Neither `end` nor `count` is
     * touched.
     */
    method Remove(key: K) returns (r: Node?<K, D>)
      requires Valid()
      modifies this, spine
      ensures Valid() && Repr == old(Repr)
      ensures end == old(end) && count == old(count)
      ensures FirstIndex(old(Keys()), key).None? ==> r == null && spine == old(spine)
      ensures FirstIndex(old(Keys()), key).Some? ==>
        r == old(spine)[FirstIndex(old(Keys()), key).value] &&
        spine == Without(old(spine), FirstIndex(old(Keys()), key).value)
      ensures r != null ==> r.next == old(r.next) && forall j :: 0 <= j < |spine| ==> spine[j] != r
    {
      var previous: Node?<K, D> := null;
      var node := start;
      ghost var i := 0;
      while node != null
        invariant Valid() && 0 <= i <= |spine| && spine == old(spine) && unchanged(this)
        invariant node == if i < |spine| then spine[i] else null
        invariant previous == if i == 0 then null else spine[i - 1]
        invariant forall j :: 0 <= j < i ==> spine[j].key != key
        decreases |spine| - i
      {
        if key == node.key {
          Unlink(previous, node, i);
          return node;
        }
        previous := node;
        node := node.next;
        i := i + 1;
      }
      return null;
    }

    /**
     * `remove` with `end` and `count` kept in step: unlinking the last node
     * moves `end` back to the node before it, and `count` drops by one.
     */
    method RemoveTidy(key: K) returns (r: Node?<K, D>)
      requires Tidy()
      modifies this, spine
      ensures Tidy() && Repr == old(Repr)
      ensures FirstIndex(old(Keys()), key).None? ==> r == null && spine == old(spine)
      ensures FirstIndex(old(Keys()), key).Some? ==>
        r == old(spine)[FirstIndex(old(Keys()), key).value] &&
        spine == Without(old(spine), FirstIndex(old(Keys()), key).value)
    {
      var previous: Node?<K, D> := null;
      var node := start;
      ghost var i := 0;
      while node != null
        invariant Valid() && 0 <= i <= |spine| && spine == old(spine) && unchanged(this)
        invariant node == if i < |spine| then spine[i] else null
        invariant previous == if i == 0 then null else spine[i - 1]
        invariant forall j :: 0 <= j < i ==> spine[j].key != key
        decreases |spine| - i
      {
        if key == node.key {
          var wasEnd := node == end;
          Unlink(previous, node, i);
          if wasEnd {
            end := previous;
          }
          count := count - 1;
          return node;
        }
        previous := node;
        node := node.next;
        i := i + 1;
      }
      return null;
    }

    /** `self.start = self.start.next` or `previous.next = node.next` for the
        node at chain position `i`, whose predecessor is `previous`. */
    method Unlink(previous: Node?<K, D>, node: Node<K, D>, ghost i: nat)
      requires Valid() && i < |spine| && node == spine[i]
      requires previous == if i == 0 then null else spine[i - 1]
      modifies this, previous
      ensures Valid() && Repr == old(Repr)
      ensures end == old(end) && count == old(count)
      ensures spine == Without(old(spine), i)
      ensures forall j :: 0 <= j < |spine| ==> spine[j] != old(spine)[i]
    {
      ghost var s := spine;
      assert node.next == if i + 1 < |s| then s[i + 1] else null;
      if previous == null {
        start := node.next;
      } else {
        previous.next := node.next;
      }
      spine := Without(s, i);
      forall j | 0 <= j < |spine| ensures spine[j].next == if j + 1 < |spine| then spine[j + 1] else null {
        if j + 1 < i {
          assert spine[j] == s[j] && s[j] != previous;
          assert s[j].next == old(s[j].next) == s[j + 1];
        } else if j + 1 == i {
          assert spine[j] == previous;
        } else {
          assert spine[j] == s[j + 1] && (i == 0 || s[j + 1] != previous);
          assert s[j + 1].next == old(s[j + 1].next);
        }
      }
    }
  }

  /**
   * As written, inserting after the last node has been removed loses the
   * new node: `end` still names the removed node, the new node is linked
   * after it, and the walk from `start` never reaches it.
   */
  method InsertAfterTailRemoval() returns (found: bool)
    ensures !found
  {
    var list := new LinkedList<int, int>();
    list.Insert(1, 10);
    list.Insert(2, 20);
    var removed := list.Remove(2);
    list.Insert(3, 30);
    var node := list.Search(3);
    found := node != null;
  }

  /** Removing the only node empties the chain, so the next insert starts a
      new chain even though `end` still names the removed node. */
  method InsertAfterOnlyRemoval() returns (found: bool)
    ensures found
  {
    var list := new LinkedList<int, int>();
    list.Insert(1, 10);
    var removed := list.Remove(1);
    list.Insert(2, 20);
    var node := list.Search(2);
    found := node != null;
  }

  /** With `RemoveTidy` in place of `remove`, the same calls find the node. */
  method InsertAfterTailRemovalTidy() returns (found: bool)
    ensures found
  {
    var list := new LinkedList<int, int>();
    list.Insert(1, 10);
    list.Insert(2, 20);
    var removed := list.RemoveTidy(2);
    list.Insert(3, 30);
    var node := list.Search(3);
    found := node != null;
  }
}
