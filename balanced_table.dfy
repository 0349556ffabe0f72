/**
 * `Hashtable` of Hashtable.py: 127 slots, each empty or holding a
 * `BinaryTree` bucket (BalancedTree) created on the first insert into it.
 */
module BalancedTable {
  import opened Wrappers
  import opened Hashing
  import opened BalancedTree
  import LexOrder

  class Hashtable<V> {
    var table: array<BinaryTree?<V>>
    ghost var Repr: set<object>

    /**
     * Every bucket is sorted with no key twice, its tree is the one built
     * over its list, all its keys hash to its slot, and no bucket sits in
     * two slots.
     */
    ghost predicate Valid()
      reads this, Repr
    {
      this in Repr && table in Repr && table.Length == AsciiLength &&
      (forall i :: 0 <= i < table.Length && table[i] != null ==>
        table[i] in Repr && table[i].Valid() && StrictlySorted(table[i].nodes) &&
        forall j :: 0 <= j < |table[i].nodes| ==> Hash(table[i].nodes[j].key) == i) &&
      (forall i, j :: 0 <= i < j < table.Length && table[i] != null ==> table[i] != table[j])
    }

    /** The value the table holds for `key`, read off the bucket's list. */
    ghost function Lookup(key: string): Option<V>
      reads this, Repr
      requires Valid()
    {
      var cell := table[Hash(key)];
      if cell == null then None else Find(cell.nodes, key)
    }

    /** `__init__`: every slot empty. */
    constructor ()
      ensures Valid() && fresh(Repr)
      ensures table.Length == AsciiLength
      ensures forall i :: 0 <= i < table.Length ==> table[i] == null
      ensures forall key :: Lookup(key).None?
    {
      table := new BinaryTree?<V>[AsciiLength](_ => null);
      Repr := {this, table};
      new;
      Repr := {this, table};
    }

    /**
     * `insert(key, kwargs)`: on a key already present the found node's
     * `info` is overwritten in place (no node added, tree untouched);
     * otherwise the bucket inserts, after being created if the slot was empty.
     */
    method Insert(key: string, info: V)
      requires Valid()
      modifies Repr
      ensures Valid() && fresh(Repr - old(Repr))
      ensures table == old(table)
      ensures forall q :: Lookup(q) == if q == key then Some(info) else old(Lookup(q))
      ensures table[Hash(key)] != null
      ensures forall i :: 0 <= i < AsciiLength && i != Hash(key) ==>
        table[i] == old(table[i]) && (table[i] != null ==> table[i].nodes == old(table[i].nodes))
      ensures forall i :: 0 <= i < AsciiLength && old(table[i]) != null ==> table[i] == old(table[i])
      ensures old(table[Hash(key)]) != null && old(Lookup(key)).Some? ==>
        table[Hash(key)].root == old(table[Hash(key)].root) &&
        |table[Hash(key)].nodes| == old(|table[Hash(key)].nodes|)
      ensures old(Lookup(key)).None? ==>
        |table[Hash(key)].nodes| == (if old(table[Hash(key)]) == null then 0 else old(|table[Hash(key)].nodes|)) + 1
    {
      var index := CalcKey(key);
      if table[index] != null {
        InsertIntoBucket(index, key, info);
      } else {
        AddBucket(index);
        AddNode(index, key, info);
      }
    }

    /** The `if cell:` branch: search the bucket, then update or insert. */
    method InsertIntoBucket(index: nat, key: string, info: V)
      requires Valid() && index == Hash(key) && table[index] != null
      modifies table[index]
      ensures Valid() && Repr == old(Repr)
      ensures forall q :: Lookup(q) == if q == key then Some(info) else old(Lookup(q))
      ensures OthersKept(index)
      ensures old(Lookup(key)).Some? ==>
        table[index].root == old(table[index].root) && |table[index].nodes| == old(|table[index].nodes|)
      ensures old(Lookup(key)).None? ==> |table[index].nodes| == old(|table[index].nodes|) + 1
    {
      var cell := table[index];
      SearchBuilt(cell.nodes, key);
      var node := BalancedTree.Search(cell.nodes, cell.root, key);
      if node.None? {
        AddNode(index, key, info);
      } else {
        UpdateNode(index, node.value, info);
      }
    }

    /** Every slot but `index` holds the bucket it held, with the list it held. */
    twostate predicate OthersKept(index: nat)
      reads this, table, set i | 0 <= i < table.Length && table[i] != null :: table[i]
    {
      table == old(table) && table.Length == AsciiLength &&
      forall i :: 0 <= i < AsciiLength && i != index ==>
        table[i] == old(table[i]) && (table[i] != null ==> table[i].nodes == old(table[i].nodes))
    }

    /** `self.table[index] = BinaryTree()`. */
    method AddBucket(index: nat)
      requires Valid() && index < AsciiLength && table[index] == null
      modifies this, table
      ensures Valid() && fresh(Repr - old(Repr))
      ensures table == old(table) && table[index] != null && table[index].nodes == []
      ensures OthersKept(index)
      ensures forall q :: Lookup(q) == old(Lookup(q))
    {
      var cell := new BinaryTree();
      table[index] := cell;
      Repr := Repr + {cell};
    }

    /** Delegation to the bucket's `insert` for a key the bucket lacks. */
    method AddNode(index: nat, key: string, info: V)
      requires Valid() && index == Hash(key) && table[index] != null
      requires Lookup(key).None?
      modifies table[index]
      ensures Valid() && Repr == old(Repr)
      ensures forall q :: Lookup(q) == if q == key then Some(info) else old(Lookup(q))
      ensures OthersKept(index) && table[index] == old(table[index])
      ensures |table[index].nodes| == old(|table[index].nodes|) + 1
    {
      var cell := table[index];
      InsertNew(cell, key, info);
      forall i | 0 <= i < table.Length && table[i] != null && i != index
        ensures table[i].Valid() && StrictlySorted(table[i].nodes)
        ensures forall j :: 0 <= j < |table[i].nodes| ==> Hash(table[i].nodes[j].key) == i
      {
        assert table[i] != cell;
      }
    }

    /** `node.info = kwargs` for the node at position `p` of the key's bucket. */
    method UpdateNode(index: nat, p: int, info: V)
      requires Valid() && index < AsciiLength && table[index] != null
      requires 0 <= p < |table[index].nodes|
      modifies table[index]
      ensures Valid() && Repr == old(Repr)
      ensures forall q :: Lookup(q) == if q == old(table[index].nodes[p].key) then Some(info) else old(Lookup(q))
      ensures OthersKept(index) && table[index] == old(table[index])
      ensures table[index].root == old(table[index].root)
      ensures |table[index].nodes| == old(|table[index].nodes|)
    {
      var cell := table[index];
      SetInfo(cell, p, info);
      forall i | 0 <= i < table.Length && table[i] != null && i != index
        ensures table[i].Valid() && StrictlySorted(table[i].nodes)
        ensures forall j :: 0 <= j < |table[i].nodes| ==> Hash(table[i].nodes[j].key) == i
      {
        assert table[i] != cell;
      }
    }

    /** `node.info = kwargs` on the node found at position `p`. */
    static method SetInfo(cell: BinaryTree<V>, p: int, info: V)
      requires cell.Valid() && StrictlySorted(cell.nodes)
      requires 0 <= p < |cell.nodes|
      modifies cell
      ensures cell.Valid() && StrictlySorted(cell.nodes)
      ensures cell.root == old(cell.root)
      ensures cell.nodes == old(cell.nodes)[p := old(cell.nodes)[p].(info := info)]
      ensures forall q :: Find(cell.nodes, q) == if q == old(cell.nodes)[p].key then Some(info) else Find(old(cell.nodes), q)
    {
      forall j | 0 <= j < p ensures cell.nodes[j].key != cell.nodes[p].key {
        LexOrder.LessIrreflexive(cell.nodes[p].key);
      }
      ghost var before := cell.nodes;
      cell.nodes := cell.nodes[p := cell.nodes[p].(info := info)];
      forall q ensures Find(cell.nodes, q) == if q == before[p].key then Some(info) else Find(before, q) {
        FindAfterUpdate(before, p, info, q);
      }
    }

    /** The bucket's own insert, for a key its list does not hold. */
    static method InsertNew(cell: BinaryTree<V>, key: string, info: V)
      requires cell.Valid() && StrictlySorted(cell.nodes)
      requires forall j :: 0 <= j < |cell.nodes| ==> cell.nodes[j].key != key
      modifies cell
      ensures cell.Valid() && StrictlySorted(cell.nodes)
      ensures cell.nodes == InsertByKey(old(cell.nodes), Entry(key, info))
      ensures |cell.nodes| == |old(cell.nodes)| + 1
      ensures forall j :: 0 <= j < |cell.nodes| ==> cell.nodes[j] == Entry(key, info) || cell.nodes[j] in old(cell.nodes)
      ensures forall q :: Find(cell.nodes, q) == if q == key then Some(info) else Find(old(cell.nodes), q)
    {
      ghost var before := cell.nodes;
      SortAfterAppend(before, Entry(key, info));
      InsertStrictlySorted(before, Entry(key, info));
      cell.Insert(key, info);
      forall j | 0 <= j < |cell.nodes| ensures cell.nodes[j] == Entry(key, info) || cell.nodes[j] in before {
        assert cell.nodes[j] in multiset(cell.nodes);
      }
      forall q ensures Find(cell.nodes, q) == if q == key then Some(info) else Find(before, q) {
        FindAfterInsert(before, Entry(key, info), q);
      }
    }

    /** `search(key)`: the node stored under `key` in its slot's tree. */
    method Search(key: string) returns (r: Option<Entry<V>>)
      requires Valid()
      ensures r.None? <==> Lookup(key).None?
      ensures r.Some? ==> r.value == Entry(key, Lookup(key).value)
    {
      var index := CalcKey(key);
      var cell := table[index];
      if cell == null {
        return None;
      }
      SearchBuilt(cell.nodes, key);
      var node := BalancedTree.Search(cell.nodes, cell.root, key);
      r := if node.None? then None else Some(cell.nodes[node.value]);
    }
  }
}
