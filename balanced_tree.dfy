/**
 * The bucket of Hashtable.py: a `BinaryTree` that keeps every node in a
 * list sorted by key and, after each insert, rebuilds the tree over that
 * list by recursive midpoint bisection.
 *
 * The nodes of the list and of the tree are the same objects, so a tree is
 * modelled as a tree of POSITIONS in the list: `Branch(l, p, r)` is the node
 * `nodes[p]` with children `l` and `r`. Writing `node.info` through the tree
 * is then an update of `nodes[p]` that the list sees too, as in the source.
 */
module BalancedTree {
  import opened Wrappers
  import opened LexOrder

  /** The key and the value (`info`) of a `Node`. */
  datatype Entry<V> = Entry(key: string, info: V)

  /** A tree whose nodes are positions in the bucket's node list. */
  datatype Tree = Empty | Branch(left: Tree, pos: int, right: Tree)

  function InOrder(t: Tree): seq<int>
  {
    match t
    case Empty => []
    case Branch(l, p, r) => InOrder(l) + [p] + InOrder(r)
  }

  function Height(t: Tree): nat
  {
    match t
    case Empty => 0
    case Branch(l, _, r) => 1 + if Height(l) < Height(r) then Height(r) else Height(l)
  }

  /** The number of positions in `lo..hi`. */
  function Count(lo: int, hi: int): nat
  {
    if lo > hi then 0 else hi - lo + 1
  }

  /** The midpoint `start + (end - start) / 2` (floor division, as the float
      division followed by `int` truncation gives for `start <= end`). */
  function Mid(lo: int, hi: int): (m: int)
    requires lo <= hi
    ensures lo <= m <= hi
    ensures m - lo <= hi - m <= m - lo + 1
  {
    lo + (hi - lo) / 2
  }

  /** `build(start, end)`: the tree over positions `start..end`; it is
      empty exactly when the range is. */
  function Build(lo: int, hi: int): (t: Tree)
    ensures t.Empty? <==> lo > hi
    decreases hi - lo + 1
  {
    if lo > hi then Empty
    else
      var mid := Mid(lo, hi);
      Branch(Build(lo, mid - 1), mid, Build(mid + 1, hi))
  }

  function Pow2(k: nat): (p: nat)
    ensures p >= 1
  {
    if k == 0 then 1 else 2 * Pow2(k - 1)
  }

  /** The least `k` with `m <= 2^k`, that is `⌈log2 m⌉` for `m >= 1`. */
  function CeilLog2(m: nat): (k: nat)
    ensures m <= Pow2(k)
    ensures k > 0 ==> Pow2(k - 1) < m
  {
    if m <= 1 then 0 else 1 + CeilLog2((m + 1) / 2)
  }

  /** Every position of `t` indexes `nodes`. */
  predicate Within<V>(t: Tree, nodes: seq<Entry<V>>)
  {
    match t
    case Empty => true
    case Branch(l, p, r) => 0 <= p < |nodes| && Within(l, nodes) && Within(r, nodes)
  }

  /** Binary-search-tree order: keys on the left are smaller than the node's
      key, keys on the right are larger. */
  ghost predicate Ordered<V>(t: Tree, nodes: seq<Entry<V>>)
  {
    match t
    case Empty => true
    case Branch(l, p, r) =>
      0 <= p < |nodes| && Ordered(l, nodes) && Ordered(r, nodes) &&
      (forall i :: i in InOrder(l) ==> 0 <= i < |nodes| && Less(nodes[i].key, nodes[p].key)) &&
      (forall i :: i in InOrder(r) ==> 0 <= i < |nodes| && Less(nodes[p].key, nodes[i].key))
  }

  /** `search(node, search_key)`: the position of the node found, if any. */
  function Search<V>(nodes: seq<Entry<V>>, t: Tree, key: string): (r: Option<int>)
    requires Within(t, nodes)
    ensures r.Some? ==> r.value in InOrder(t) && 0 <= r.value < |nodes| && nodes[r.value].key == key
  {
    match t
    case Empty => None
    case Branch(l, p, rt) =>
      if key == nodes[p].key then Some(p)
      else if Less(nodes[p].key, key) then Search(nodes, rt, key)
      // otherwise `search_key < nodeKey`, since string order is total
      else Search(nodes, l, key)
  }

  // ---------------------------------------------------------------------
  // The node list: sorted by key, as `sorted(self.nodes, key=...)` leaves it
  // ---------------------------------------------------------------------

  ghost predicate SortedByKey<V>(s: seq<Entry<V>>)
  {
    forall i, j :: 0 <= i < j < |s| ==> !Less(s[j].key, s[i].key)
  }

  /** Sorted with no key twice: the state the table keeps every bucket in. */
  ghost predicate StrictlySorted<V>(s: seq<Entry<V>>)
  {
    forall i, j :: 0 <= i < j < |s| ==> Less(s[i].key, s[j].key)
  }

  /** Insert `e` after every entry whose key is not greater than `e.key`. */
  function InsertByKey<V>(s: seq<Entry<V>>, e: Entry<V>): (r: seq<Entry<V>>)
    ensures multiset(r) == multiset(s) + multiset{e}
  {
    if s == [] then [e]
    else if Less(e.key, s[0].key) then [e] + s
    else
      assert s == [s[0]] + s[1..];
      [s[0]] + InsertByKey(s[1..], e)
  }

  /** `sorted(s, key=lambda x: x.key)`: a stable sort, here insertion sort. */
  function SortByKey<V>(s: seq<Entry<V>>): (r: seq<Entry<V>>)
    ensures multiset(r) == multiset(s)
    ensures SortedByKey(r)
  {
    if s == [] then []
    else
      var init, last := s[..|s| - 1], s[|s| - 1];
      assert s == init + [last];
      InsertSorted(SortByKey(init), last);
      InsertByKey(SortByKey(init), last)
  }

  /** The value stored under `key` in the list, if any. */
  function Find<V>(s: seq<Entry<V>>, key: string): (r: Option<V>)
    ensures r.None? <==> forall j :: 0 <= j < |s| ==> s[j].key != key
    ensures r.Some? ==> exists j :: 0 <= j < |s| && s[j] == Entry(key, r.value)
  {
    if s == [] then None
    else if s[0].key == key then Some(s[0].info)
    else
      var r := Find(s[1..], key);
      assert forall j :: 0 < j < |s| ==> s[j] == s[1..][j - 1];
      r
  }

  // ---------------------------------------------------------------------
  // The rebuilt tree: in-order traversal, order, balance
  // ---------------------------------------------------------------------

  /** The in-order traversal of `build(start, end)` is exactly the positions
      `start..end` in increasing order. */
  lemma {:induction false} BuildInOrder(lo: int, hi: int)
    ensures |InOrder(Build(lo, hi))| == Count(lo, hi)
    ensures forall j :: 0 <= j < Count(lo, hi) ==> InOrder(Build(lo, hi))[j] == lo + j
    decreases hi - lo + 1
  {
    if lo <= hi {
      var mid := Mid(lo, hi);
      BuildInOrder(lo, mid - 1);
      BuildInOrder(mid + 1, hi);
      var l, r := InOrder(Build(lo, mid - 1)), InOrder(Build(mid + 1, hi));
      var s := l + [mid] + r;
      assert InOrder(Build(lo, hi)) == s;
      forall j | 0 <= j < Count(lo, hi) ensures s[j] == lo + j {
        if j < |l| {
          assert s[j] == l[j];
        } else if j > |l| {
          assert s[j] == r[j - |l| - 1];
        }
      }
    }
  }

  /** The tree `build` produces is a search tree when the list is strictly sorted. */
  lemma {:induction false} BuildOrdered<V>(nodes: seq<Entry<V>>, lo: int, hi: int)
    requires StrictlySorted(nodes)
    requires 0 <= lo && hi < |nodes|
    ensures Ordered(Build(lo, hi), nodes)
    decreases hi - lo + 1
  {
    if lo <= hi {
      var mid := Mid(lo, hi);
      var lt, rt := Build(lo, mid - 1), Build(mid + 1, hi);
      assert Build(lo, hi) == Branch(lt, mid, rt);
      BuildOrdered(nodes, lo, mid - 1);
      BuildOrdered(nodes, mid + 1, hi);
      BuiltBelow(nodes, lo, mid - 1, mid);
      BuiltAbove(nodes, mid + 1, hi, mid);
      OrderedBranch(lt, mid, rt, nodes);
      assert Ordered(Build(lo, hi), nodes);
    } else {
      assert Build(lo, hi) == Empty;
    }
  }

  /** Every position of `build(lo, hi)` lies in `lo..hi`. */
  lemma BuiltRange(lo: int, hi: int)
    ensures forall i :: i in InOrder(Build(lo, hi)) ==> lo <= i <= hi
  {
    BuildInOrder(lo, hi);
    var s := InOrder(Build(lo, hi));
    forall i | i in s ensures lo <= i <= hi {
      var j :| 0 <= j < |s| && s[j] == i;
    }
  }

  lemma BuiltBelow<V>(nodes: seq<Entry<V>>, lo: int, hi: int, p: int)
    requires StrictlySorted(nodes) && 0 <= lo && hi < p < |nodes|
    ensures forall i :: i in InOrder(Build(lo, hi)) ==> 0 <= i < |nodes| && Less(nodes[i].key, nodes[p].key)
  {
    BuiltRange(lo, hi);
  }

  lemma BuiltAbove<V>(nodes: seq<Entry<V>>, lo: int, hi: int, p: int)
    requires StrictlySorted(nodes) && 0 <= p < lo && hi < |nodes|
    ensures forall i :: i in InOrder(Build(lo, hi)) ==> 0 <= i < |nodes| && Less(nodes[p].key, nodes[i].key)
  {
    BuiltRange(lo, hi);
  }

  lemma OrderedBranch<V>(l: Tree, p: int, r: Tree, nodes: seq<Entry<V>>)
    requires 0 <= p < |nodes| && Ordered(l, nodes) && Ordered(r, nodes)
    requires forall i :: i in InOrder(l) ==> 0 <= i < |nodes| && Less(nodes[i].key, nodes[p].key)
    requires forall i :: i in InOrder(r) ==> 0 <= i < |nodes| && Less(nodes[p].key, nodes[i].key)
    ensures Ordered(Branch(l, p, r), nodes)
  {
  }

  /** A tree of height `h` holds fewer than `2^h` nodes. */
  lemma {:induction false} SizeBelowPow2(t: Tree)
    ensures |InOrder(t)| < Pow2(Height(t))
  {
    match t
    case Empty =>
    case Branch(l, _, r) =>
      SizeBelowPow2(l);
      SizeBelowPow2(r);
      PowMonotone(Height(l), Height(t) - 1);
      PowMonotone(Height(r), Height(t) - 1);
  }

  lemma {:induction false} PowMonotone(a: nat, b: nat)
    requires a <= b
    ensures Pow2(a) <= Pow2(b)
    decreases b
  {
    if a < b {
      PowMonotone(a, b - 1);
    }
  }

  /** Bisection over fewer than `2^k` positions gives height at most `k`. */
  lemma {:induction false} BuildHeightBound(lo: int, hi: int, k: nat)
    requires hi - lo + 1 < Pow2(k)
    ensures Height(Build(lo, hi)) <= k
    decreases hi - lo + 1
  {
    if lo <= hi {
      var mid := Mid(lo, hi);
      assert k > 0;
      var half := Pow2(k - 1);
      assert Pow2(k) == 2 * half;
      assert mid - lo < half && hi - mid < half;
      assert Build(lo, hi) == Branch(Build(lo, mid - 1), mid, Build(mid + 1, hi));
      BuildHeightBound(lo, mid - 1, k - 1);
      BuildHeightBound(mid + 1, hi, k - 1);
    }
  }

  /** No binary tree with `n` nodes is lower than `⌈log2(n + 1)⌉`. */
  lemma MinimalHeight(t: Tree)
    ensures Height(t) >= CeilLog2(|InOrder(t)| + 1)
  {
    var k := CeilLog2(|InOrder(t)| + 1);
    SizeBelowPow2(t);
    if Height(t) < k {
      PowMonotone(Height(t), k - 1);
    }
  }

  /** The rebuilt tree over `n` nodes has height exactly `⌈log2(n + 1)⌉`,
      the least height a binary tree with `n` nodes can have. */
  lemma BuildBalanced(n: nat)
    ensures Height(Build(0, n - 1)) == CeilLog2(n + 1)
  {
    var t, k := Build(0, n - 1), CeilLog2(n + 1);
    assert n < Pow2(k);
    BuildHeightBound(0, n - 1, k);
    BuildInOrder(0, n - 1);
    assert |InOrder(t)| == n;
    MinimalHeight(t);
  }

  /** On a search tree, `search` finds a node exactly when one with that key
      is in the tree. */
  lemma {:induction false} SearchComplete<V>(nodes: seq<Entry<V>>, t: Tree, key: string)
    requires Ordered(t, nodes)
    ensures Within(t, nodes)
    ensures Search(nodes, t, key).Some? <==> exists i :: i in InOrder(t) && 0 <= i < |nodes| && nodes[i].key == key
  {
    match t
    case Empty =>
    case Branch(l, p, r) =>
      SearchComplete(nodes, l, key);
      SearchComplete(nodes, r, key);
      LessTrichotomy(nodes[p].key, key);
      if Less(nodes[p].key, key) {
        forall i | i in InOrder(l) ensures nodes[i].key != key {
          LessTransitive(nodes[i].key, nodes[p].key, key);
          LessIrreflexive(key);
        }
      } else if Less(key, nodes[p].key) {
        forall i | i in InOrder(r) ensures nodes[i].key != key {
          LessTransitive(key, nodes[p].key, nodes[i].key);
          LessIrreflexive(key);
        }
      }
  }

  /** Searching the rebuilt tree of a strictly sorted list finds what `Find`
      finds in the list. */
  lemma SearchBuilt<V>(nodes: seq<Entry<V>>, key: string)
    requires StrictlySorted(nodes)
    ensures Within(Build(0, |nodes| - 1), nodes)
    ensures match Search(nodes, Build(0, |nodes| - 1), key)
      case None => Find(nodes, key).None?
      case Some(p) => Find(nodes, key) == Some(nodes[p].info)
  {
    var t := Build(0, |nodes| - 1);
    BuildOrdered(nodes, 0, |nodes| - 1);
    SearchComplete(nodes, t, key);
    match Search(nodes, t, key)
    case None =>
      BuildInOrder(0, |nodes| - 1);
      forall j | 0 <= j < |nodes| ensures nodes[j].key != key {
        assert InOrder(t)[j] == j;
      }
    case Some(p) =>
      forall j | 0 <= j < p ensures nodes[j].key != nodes[p].key {
        LessIrreflexive(nodes[p].key);
      }
      FindFirst(nodes, p);
  }

  /** `Find` returns the value of the first entry carrying the key. */
  lemma {:induction false} FindFirst<V>(s: seq<Entry<V>>, p: nat)
    requires p < |s|
    requires forall j :: 0 <= j < p ==> s[j].key != s[p].key
    ensures Find(s, s[p].key) == Some(s[p].info)
    decreases p
  {
    if p > 0 {
      FindFirst(s[1..], p - 1);
    }
  }

  // ---------------------------------------------------------------------
  // Inserting into the sorted list
  // ---------------------------------------------------------------------

  lemma {:induction false} InsertSorted<V>(s: seq<Entry<V>>, e: Entry<V>)
    requires SortedByKey(s)
    ensures SortedByKey(InsertByKey(s, e))
    decreases |s|
  {
    if s != [] {
      var r := InsertByKey(s, e);
      if Less(e.key, s[0].key) {
        forall j | 0 <= j < |s| ensures !Less(s[j].key, e.key) {
          LessTrichotomy(e.key, s[0].key);
          if j > 0 { LessEqTransitive(e.key, s[0].key, s[j].key); }
          LessTrichotomy(e.key, s[j].key);
        }
      } else {
        InsertSorted(s[1..], e);
        var rest := InsertByKey(s[1..], e);
        forall j | 0 <= j < |rest| ensures !Less(rest[j].key, s[0].key) {
          assert rest[j] in multiset(rest);
          if rest[j] != e {
            var k :| 1 <= k < |s| && s[k] == rest[j];
          }
        }
      }
    }
  }

  lemma {:induction false} InsertStrictlySorted<V>(s: seq<Entry<V>>, e: Entry<V>)
    requires StrictlySorted(s)
    requires forall j :: 0 <= j < |s| ==> s[j].key != e.key
    ensures StrictlySorted(InsertByKey(s, e))
    decreases |s|
  {
    if s != [] {
      if Less(e.key, s[0].key) {
        forall j | 0 < j < |s| ensures Less(e.key, s[j].key) {
          LessTransitive(e.key, s[0].key, s[j].key);
        }
      } else {
        LessTrichotomy(e.key, s[0].key);
        InsertStrictlySorted(s[1..], e);
        var rest := InsertByKey(s[1..], e);
        forall j | 0 <= j < |rest| ensures Less(s[0].key, rest[j].key) {
          assert rest[j] in multiset(rest);
          if rest[j] != e {
            var k :| 1 <= k < |s| && s[k] == rest[j];
          }
        }
      }
    }
  }

  /** An entry whose key is not below any key of the list goes at the end. */
  lemma {:induction false} InsertAtEnd<V>(s: seq<Entry<V>>, e: Entry<V>)
    requires forall j :: 0 <= j < |s| ==> !Less(e.key, s[j].key)
    ensures InsertByKey(s, e) == s + [e]
    decreases |s|
  {
    if s != [] {
      InsertAtEnd(s[1..], e);
      assert s == [s[0]] + s[1..];
    }
  }

  /** Sorting an already sorted list changes nothing. */
  lemma {:induction false} SortSorted<V>(s: seq<Entry<V>>)
    requires SortedByKey(s)
    ensures SortByKey(s) == s
    decreases |s|
  {
    if s != [] {
      var init, last := s[..|s| - 1], s[|s| - 1];
      SortedSplit(s);
      SortSorted(init);
      InsertAtEnd(init, last);
      assert SortByKey(s) == InsertByKey(SortByKey(init), last);
    }
  }

  /** A sorted list without its last entry is sorted, and no key before the
      last is above the last key. */
  lemma SortedSplit<V>(s: seq<Entry<V>>)
    requires SortedByKey(s) && s != []
    ensures SortedByKey(s[..|s| - 1])
    ensures forall j :: 0 <= j < |s| - 1 ==> !Less(s[|s| - 1].key, s[j].key)
  {
    var init := s[..|s| - 1];
    assert forall j :: 0 <= j < |init| ==> init[j] == s[j];
  }

  /** What `insert` does to a sorted list: re-sorting after the append puts
      the new entry after every key not above its own. */
  lemma SortAfterAppend<V>(s: seq<Entry<V>>, e: Entry<V>)
    requires SortedByKey(s)
    ensures SortByKey(s + [e]) == InsertByKey(s, e)
  {
    assert (s + [e])[..|s|] == s;
    SortSorted(s);
  }

  /** After inserting an entry with a new key, lookups find it, and every
      other key finds what it found before. */
  lemma {:induction false} FindAfterInsert<V>(s: seq<Entry<V>>, e: Entry<V>, key: string)
    requires forall j :: 0 <= j < |s| ==> s[j].key != e.key
    ensures Find(InsertByKey(s, e), key) == if key == e.key then Some(e.info) else Find(s, key)
    decreases |s|
  {
    if s != [] && !Less(e.key, s[0].key) {
      FindAfterInsert(s[1..], e, key);
    }
  }

  /** Replacing the value of the one entry with a given key: lookups of that
      key see the new value, and every other key is unaffected. */
  lemma {:induction false} FindAfterUpdate<V>(s: seq<Entry<V>>, p: nat, info: V, key: string)
    requires p < |s|
    requires forall j :: 0 <= j < p ==> s[j].key != s[p].key
    ensures Find(s[p := s[p].(info := info)], key) == if key == s[p].key then Some(info) else Find(s, key)
    decreases p
  {
    var s' := s[p := s[p].(info := info)];
    if p > 0 {
      if s[0].key != key {
        assert s'[1..] == s[1..][p - 1 := s[p].(info := info)];
        FindAfterUpdate(s[1..], p - 1, info, key);
      }
    }
  }

  // ---------------------------------------------------------------------
  // The bucket object
  // ---------------------------------------------------------------------

  /** `BinaryTree` of Hashtable.py. */
  class BinaryTree<V> {
    var root: Tree
    var nodes: seq<Entry<V>>

    /** The list is sorted and the tree is the one built over all of it. */
    ghost predicate Valid()
      reads this
    {
      SortedByKey(nodes) && root == Build(0, |nodes| - 1)
    }

    constructor ()
      ensures Valid()
      ensures root == Empty && nodes == []
    {
      root := Empty;
      nodes := [];
    }

    /**
     * `insert(key, kwargs)`. The membership test on a freshly created node
     * compares by identity and never succeeds, so the entry is always
     * appended; the list is then re-sorted and the tree rebuilt.
     */
    method Insert(key: string, info: V)
      modifies this
      ensures nodes == SortByKey(old(nodes) + [Entry(key, info)])
      ensures |nodes| == |old(nodes)| + 1
      ensures root == Build(0, |nodes| - 1)
      ensures Valid()
    {
      nodes := SortByKey(nodes + [Entry(key, info)]);
      assert |multiset(nodes)| == |old(nodes)| + 1;
      root := Build(0, |nodes| - 1);
    }
  }
}
