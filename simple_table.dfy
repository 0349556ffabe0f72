/**
 * `HashTable` of HashTable.py: 127 slots, each empty or holding a
 * `BinaryTree` bucket (SimpleTree) created on the first insert into it.
 */
module SimpleTable {
  import opened Wrappers
  import opened Hashing
  import opened SimpleTree

  class HashTable<V> {
    var table: array<BinaryTree?<V>>
    ghost var Repr: set<object>

    /** Every bucket is a valid search tree whose keys all hash to its slot,
        and no bucket sits in two slots. */
    ghost predicate Valid()
      reads this, Repr
    {
      this in Repr && table in Repr && table.Length == AsciiLength &&
      (forall i :: 0 <= i < table.Length && table[i] != null ==>
        table[i] in Repr && table[i].Valid() &&
        forall j :: 0 <= j < |table[i].nodes| ==> Hash(table[i].nodes[j].key) == i) &&
      (forall i, j :: 0 <= i < j < table.Length && table[i] != null ==> table[i] != table[j])
    }

    /** The value the table holds for `key`: what its slot's tree finds. */
    ghost function Lookup(key: string): Option<V>
      reads this, Repr
      requires Valid()
    {
      var cell := table[Hash(key)];
      if cell == null then None else cell.Lookup(key)
    }

    /** `__init__`: every slot empty. */
    constructor ()
      ensures Valid() && fresh(Repr)
      ensures table.Length == AsciiLength
      ensures forall i :: 0 <= i < table.Length ==> table[i] == null
      ensures forall key :: Lookup(key).None?
    {
      table := new BinaryTree?<V>[AsciiLength](_ => null);
      Repr := {this, table};
      new;
      Repr := {this, table};
    }

    /**
     * `insert(key, value)`: a key already in its slot's tree has its node's
     * value overwritten, and the tree keeps its root, keys and links;
     * otherwise the tree inserts it as a new leaf, after being created if
     * the slot was empty. Every other key keeps its value.
     */
    method Insert(key: string, value: V)
      requires Valid()
      modifies Repr
      ensures Valid() && fresh(Repr - old(Repr))
      ensures table == old(table)
      ensures forall q :: Lookup(q) == if q == key then Some(value) else old(Lookup(q))
      ensures table[Hash(key)] != null
      ensures forall i :: 0 <= i < AsciiLength && i != Hash(key) ==>
        table[i] == old(table[i]) && (table[i] != null ==> table[i].nodes == old(table[i].nodes))
      ensures forall i :: 0 <= i < AsciiLength && old(table[i]) != null ==> table[i] == old(table[i])
      ensures old(Lookup(key)).Some? ==> |table[Hash(key)].nodes| == old(|table[Hash(key)].nodes|)
      ensures old(Lookup(key)).None? ==>
        |table[Hash(key)].nodes| == (if old(table[Hash(key)]) == null then 0 else old(|table[Hash(key)].nodes|)) + 1
      ensures old(Lookup(key)).Some? ==>
        table[Hash(key)].root == old(table[Hash(key)].root) &&
        exists p: nat :: p < |old(table[Hash(key)].nodes)| && old(table[Hash(key)].nodes)[p].key == key &&
          table[Hash(key)].nodes == old(table[Hash(key)].nodes)[p := old(table[Hash(key)].nodes)[p].(value := value)]
      ensures old(Lookup(key)).None? && (old(table[Hash(key)]) == null || old(table[Hash(key)].nodes) == []) ==>
        table[Hash(key)].nodes == [Node(key, value, None, None)]
      ensures old(Lookup(key)).None? && old(table[Hash(key)]) != null && old(table[Hash(key)].nodes) != [] ==>
        exists p: nat, onLeft: bool :: p < |old(table[Hash(key)].nodes)| &&
          FreeSide(old(table[Hash(key)].nodes)[p], onLeft) &&
          table[Hash(key)].nodes == Attached(old(table[Hash(key)].nodes), p, onLeft, key, value)
    {
      var index := CalcKey(key);
      var cell := table[index];
      if cell != null {
        var node := SimpleTree.Search(cell.nodes, cell.root, key);
        if node.None? {
          AddNode(index, key, value);
        } else {
          UpdateNode(index, node.value, value);
        }
      } else {
        AddBucket(index);
        AddNode(index, key, value);
      }
    }

    /** `self.table[index] = BinaryTree()`. */
    method AddBucket(index: nat)
      requires Valid() && index < AsciiLength && table[index] == null
      modifies this, table
      ensures Valid() && fresh(Repr - old(Repr))
      ensures table == old(table) && table[index] != null && table[index].nodes == []
      ensures forall i :: 0 <= i < AsciiLength && i != index ==> table[i] == old(table[i])
      ensures forall q :: Lookup(q) == old(Lookup(q))
    {
      var cell := new BinaryTree();
      table[index] := cell;
      Repr := Repr + {cell};
    }

    /** Delegation to the tree's `insert` for a key the tree lacks. */
    method AddNode(index: nat, key: string, value: V)
      requires Valid() && index == Hash(key) && table[index] != null
      requires Lookup(key).None?
      modifies table[index]
      ensures Valid() && Repr == old(Repr)
      ensures forall q :: Lookup(q) == if q == key then Some(value) else old(Lookup(q))
      ensures |table[index].nodes| == old(|table[index].nodes|) + 1
      ensures old(table[index].nodes) == [] ==> table[index].nodes == [Node(key, value, None, None)]
      ensures old(table[index].nodes) != [] ==>
        exists p: nat, onLeft: bool :: p < |old(table[index].nodes)| &&
          FreeSide(old(table[index].nodes)[p], onLeft) &&
          table[index].nodes == Attached(old(table[index].nodes), p, onLeft, key, value)
    {
      var cell := table[index];
      if cell.nodes != [] {
        SearchAbsent(cell.nodes, cell.lower, cell.upper, cell.parent, key);
      }
      cell.Insert(key, value);
      forall i | 0 <= i < table.Length && table[i] != null && i != index
        ensures table[i].Valid()
        ensures forall j :: 0 <= j < |table[i].nodes| ==> Hash(table[i].nodes[j].key) == i
      {
        assert table[i] != cell;
      }
      assert forall j :: 0 <= j < |cell.nodes| ==> Hash(cell.nodes[j].key) == index by {
        forall j | 0 <= j < |cell.nodes| ensures Hash(cell.nodes[j].key) == index {
          KeyKept(old(cell.nodes), cell.nodes, key, value, j);
        }
      }
    }

    /** `node.setValue(value)` on the node found at arena position `p`. */
    method UpdateNode(index: nat, p: nat, value: V)
      requires Valid() && index < AsciiLength && table[index] != null
      requires p < |table[index].nodes|
      modifies table[index]
      ensures Valid() && Repr == old(Repr)
      ensures forall q :: Lookup(q) == if q == old(table[index].nodes[p].key) then Some(value) else old(Lookup(q))
      ensures table[index].root == old(table[index].root)
      ensures table[index].nodes == old(table[index].nodes)[p := old(table[index].nodes)[p].(value := value)]
    {
      var cell := table[index];
      cell.SetValue(p, value);
      forall i | 0 <= i < table.Length && table[i] != null && i != index
        ensures table[i].Valid()
        ensures forall j :: 0 <= j < |table[i].nodes| ==> Hash(table[i].nodes[j].key) == i
      {
        assert table[i] != cell;
      }
    }

    /** `search(string)`: the node its slot's tree finds, `None` for an empty slot. */
    method Search(key: string) returns (r: Option<Node<V>>)
      requires Valid()
      ensures r.None? <==> Lookup(key).None?
      ensures r.Some? ==> r.value.key == key && r.value.value == Lookup(key).value
    {
      var index := CalcKey(key);
      var cell := table[index];
      if cell == null {
        return None;
      }
      var node := SimpleTree.Search(cell.nodes, cell.root, key);
      r := if node.None? then None else Some(cell.nodes[node.value]);
    }
  }

  /** A node of the grown arena is an old node or the new leaf. */
  lemma KeyKept<V>(before: seq<Node<V>>, after: seq<Node<V>>, key: string, value: V, j: nat)
    requires |after| == |before| + 1 && after[|before|] == Node(key, value, None, None)
    requires before == [] ==> after == [Node(key, value, None, None)]
    requires before != [] ==>
      exists p: nat, onLeft: bool :: p < |before| && FreeSide(before[p], onLeft) &&
        after == Attached(before, p, onLeft, key, value)
    requires j < |after|
    ensures after[j].key == key || (j < |before| && after[j].key == before[j].key)
  {
    if before != [] && j < |before| {
      var p: nat, onLeft: bool :| p < |before| && FreeSide(before[p], onLeft) &&
        after == Attached(before, p, onLeft, key, value);
      AttachedLinkedAt(before, p, onLeft, key, value);
    }
  }
}
