/** The doubly linked list with a cursor of src/common/dl_list.c. */
module DlLists {
  import opened Tokens

  class Node<D> {
    var data: D
    var next: Node?<D>
    var prev: Node?<D>

    constructor (data: D)
      ensures this.data == data && next == null && prev == null
    {
      this.data, next, prev := data, null, null;
    }
  }

  /** The list as a value: its items, and the cursor's index while there are any. */
  datatype Cursored<T> = Cursored(items: seq<T>, pos: nat)

  predicate InRange<T>(m: Cursored<T>) {
    m.items != [] ==> m.pos < |m.items|
  }

  function Appended<T>(m: Cursored<T>, x: T): Cursored<T> {
    Cursored(m.items + [x], if m.items == [] then 0 else m.pos)
  }

  function Prepended<T>(m: Cursored<T>, x: T): Cursored<T> {
    Cursored([x] + m.items, if m.items == [] then 0 else m.pos + 1)
  }

  /** Before a cursor at the head, otherwise after the cursor, which stays on its item. */
  function Inserted<T>(m: Cursored<T>, x: T): Cursored<T>
    requires InRange(m)
  {
    if m.items == [] then m
    else if m.pos == 0 then Prepended(m, x)
    else Cursored(m.items[..m.pos + 1] + [x] + m.items[m.pos + 1..], m.pos)
  }

  /** The item under the cursor goes; the cursor moves to the next one, else to the one before. */
  function Deleted<T>(m: Cursored<T>): Cursored<T>
    requires InRange(m)
  {
    if m.items == [] then m
    else Cursored(m.items[..m.pos] + m.items[m.pos + 1..], if m.pos + 1 < |m.items| then m.pos else if m.pos > 0 then m.pos - 1 else 0)
  }

  /** Where an insertion puts its item. */
  function InsertionPoint<T>(m: Cursored<T>): nat {
    if m.pos == 0 then 0 else m.pos + 1
  }

  /** Deleting the item just inserted, with the cursor moved onto it, restores the items; the cursor comes back
      to the old item when that was the head or the last item, and otherwise stands one further. */
  lemma DeleteUndoesInsert<T>(m: Cursored<T>, x: T)
    requires InRange(m) && m.items != []
    ensures var i := Inserted(m, x).(pos := InsertionPoint(m));
      && InRange(i) && i.items[i.pos] == x
      && Deleted(i) == m.(pos := if 0 < m.pos < |m.items| - 1 then m.pos + 1 else m.pos)
  {
    var i := Inserted(m, x).(pos := InsertionPoint(m));
    if m.pos > 0 {
      assert i.items[..m.pos + 1] == m.items[..m.pos + 1];
      assert i.items[m.pos + 2..] == m.items[m.pos + 1..];
      assert m.items == m.items[..m.pos + 1] + m.items[m.pos + 1..];
    } else {
      assert i.items[1..] == m.items;
    }
  }

  class List<D> {
    var first: Node?<D>
    var last: Node?<D>
    var crnt: Node?<D>

    ghost var nodes: seq<Node<D>>
    ghost var pos: nat

    ghost predicate Valid()
      reads this, nodes
    {
      && (forall i, j :: 0 <= i < j < |nodes| ==> nodes[i] != nodes[j])
      && (nodes == [] ==> first == null && last == null && crnt == null)
      && (nodes != [] ==>
            && first == nodes[0] && last == nodes[|nodes| - 1]
            && pos < |nodes| && crnt == nodes[pos]
            && first.prev == null && last.next == null)
      && (forall i {:trigger nodes[i].next} :: 0 <= i < |nodes| - 1 ==> nodes[i].next == nodes[i + 1])
      && (forall i {:trigger nodes[i].prev} :: 0 < i < |nodes| ==> nodes[i].prev == nodes[i - 1])
    }

    ghost function Model(): Cursored<Node<D>>
      reads this
    {
      Cursored(nodes, pos)
    }

    constructor ()
      ensures Valid() && Model() == Cursored([], 0)
    {
      first, last, crnt := null, null, null;
      nodes, pos := [], 0;
    }

    method Append(node: Node<D>)
      requires Valid() && node !in nodes && node.next == null && node.prev == null
      modifies this, nodes, node
      ensures Valid() && Model() == Appended(old(Model()), node)
      ensures nodes == old(nodes) + [node] && crnt == if old(nodes) == [] then node else old(crnt)
      ensures forall n :: n in nodes ==> n.data == old(n.data)
    {
      node.prev := last;
      if last != null {
        last.next := node;
      } else {
        crnt := node;
        first := node;
        pos := 0;
      }
      last := node;
      nodes := nodes + [node];
    }

    method Prepend(node: Node<D>)
      requires Valid() && node !in nodes && node.next == null && node.prev == null
      modifies this, nodes, node
      ensures Valid() && Model() == Prepended(old(Model()), node)
      ensures nodes == [node] + old(nodes) && crnt == if old(nodes) == [] then node else old(crnt)
      ensures forall n :: n in nodes ==> n.data == old(n.data)
    {
      node.next := first;
      if first != null {
        first.prev := node;
        pos := pos + 1;
      } else {
        crnt := node;
        last := node;
        pos := 0;
      }
      first := node;
      nodes := [node] + nodes;
    }

    /** The branch of insert_dl_list_node away from both ends. */
    method InsertBetween(node: Node<D>, next: Node<D>)
      requires Valid() && node !in nodes && 0 < pos < |nodes| - 1 && next == nodes[pos + 1]
      modifies this, nodes, node
      ensures Valid() && Model() == Inserted(old(Model()), node)
      ensures node.data == old(node.data) && forall n :: n in nodes ==> n.data == old(n.data)
    {
      node.prev := crnt;
      node.next := next;
      crnt.next := node;
      next.prev := node;
      nodes := nodes[..pos + 1] + [node] + nodes[pos + 1..];
    }

    method Insert(node: Node<D>) returns (data: Option<D>)
      requires Valid() && node !in nodes && node.next == null && node.prev == null
      modifies this, nodes, node
      ensures Valid() && Model() == Inserted(old(Model()), node)
      ensures crnt == old(crnt)
      ensures old(crnt) == null ==> nodes == old(nodes)
      ensures old(crnt) != null ==>
        nodes == if old(crnt.prev) == null then [node] + old(nodes)
                 else old(nodes)[..old(pos) + 1] + [node] + old(nodes)[old(pos) + 1..]
      ensures data == if old(nodes) == [] then None else Some(node.data)
      ensures node.data == old(node.data) && forall n :: n in nodes ==> n.data == old(n.data)
    {
      if crnt != null {
        var next, prev := crnt.next, crnt.prev;
        if prev == null {
          Prepend(node);
        } else if next == null {
          Append(node);
        } else {
          InsertBetween(node, next);
        }
        return Some(node.data);
      }
      return None;
    }

    /** The branch of delete_crnt_dl_list_node for the last node. */
    method CutLast(prev: Node<D>)
      requires Valid() && |nodes| > 1 && pos == |nodes| - 1 && prev == nodes[pos - 1]
      modifies this, nodes
      ensures Valid() && Model() == Deleted(old(Model()))
      ensures forall n :: n in nodes ==> n.data == old(n.data)
    {
      crnt := prev;
      last := prev;
      last.next := null;
      nodes := nodes[..pos];
      pos := pos - 1;
    }

    /** The branch for the first node. */
    method CutFirst(next: Node<D>)
      requires Valid() && |nodes| > 1 && pos == 0 && next == nodes[1]
      modifies this, nodes
      ensures Valid() && Model() == Deleted(old(Model()))
      ensures forall n :: n in nodes ==> n.data == old(n.data)
    {
      crnt := next;
      first := next;
      first.prev := null;
      nodes := nodes[1..];
    }

    /** The branch for a node between two others. */
    method CutBetween(prev: Node<D>, next: Node<D>)
      requires Valid() && 0 < pos < |nodes| - 1 && prev == nodes[pos - 1] && next == nodes[pos + 1]
      modifies this, nodes
      ensures Valid() && Model() == Deleted(old(Model()))
      ensures forall n :: n in nodes ==> n.data == old(n.data)
    {
      crnt := next;
      next.prev := prev;
      prev.next := next;
      nodes := nodes[..pos] + nodes[pos + 1..];
    }

    /** Deleting the only node of a list dereferences NULL in the source. */
    method DeleteCurrent() returns (data: Option<D>)
      requires Valid() && |nodes| != 1
      modifies this, nodes
      ensures Valid() && Model() == Deleted(old(Model()))
      ensures old(nodes) != [] ==>
        && nodes == old(nodes)[..old(pos)] + old(nodes)[old(pos) + 1..]
        && crnt == if old(crnt.next) != null then old(crnt.next) else old(crnt.prev)
      ensures forall n :: n in nodes ==> n.data == old(n.data)
      ensures data == if nodes == [] then None else Some(nodes[pos].data)
    {
      if first == null {
        return None;
      }
      if crnt != null {
        var next, prev := crnt.next, crnt.prev;
        if next == null {
          CutLast(prev);
        } else if prev == null {
          CutFirst(next);
        } else {
          CutBetween(prev, next);
        }
      }
      if crnt != null {
        return Some(crnt.data);
      }
      return None;
    }

    method Reset(flag: bool) returns (data: D)
      requires Valid() && nodes != []
      modifies this`crnt, this`pos
      ensures Valid() && Model() == Cursored(old(nodes), if flag then |nodes| - 1 else 0)
      ensures crnt == if flag then last else first
      ensures data == nodes[pos].data
    {
      if flag {
        crnt := last;
        pos := |nodes| - 1;
      } else {
        crnt := first;
        pos := 0;
      }
      return crnt.data;
    }

    method Next() returns (data: D)
      requires Valid() && pos + 1 < |nodes|
      modifies this`crnt, this`pos
      ensures Valid() && Model() == old(Model()).(pos := old(pos) + 1) && data == nodes[pos].data
      ensures crnt == old(crnt.next)
    {
      crnt := crnt.next;
      pos := pos + 1;
      return crnt.data;
    }

    method Prev() returns (data: D)
      requires Valid() && nodes != [] && pos > 0
      modifies this`crnt, this`pos
      ensures Valid() && Model() == old(Model()).(pos := old(pos) - 1) && data == nodes[pos].data
      ensures crnt == old(crnt.prev)
    {
      crnt := crnt.prev;
      pos := pos - 1;
      return crnt.data;
    }

    /** One step of a traversal: the first item, then the next one, then None for good. */
    method Iterate(mark: Mark<D>) returns (data: Option<D>, mark': Mark<D>)
      requires Valid() && nodes != [] && (mark.At? ==> mark.node in nodes)
      ensures mark == Start ==> data == Some(nodes[0].data) && mark' == At(nodes[0])
      ensures forall i :: 0 <= i < |nodes| - 1 && mark == At(nodes[i]) ==>
        data == Some(nodes[i + 1].data) && mark' == At(nodes[i + 1])
      ensures mark == At(nodes[|nodes| - 1]) || mark == Finished ==> data == None && mark' == Finished
    {
      match mark
      case Finished =>
        return None, Finished;
      case Start =>
        return Some(first.data), At(first);
      case At(node) =>
        ghost var i :| 0 <= i < |nodes| && nodes[i] == node;
        if node.next != null {
          return Some(node.next.data), At(node.next);
        }
        return None, Finished;
    }
  }

  /** The mark of iterate_dl_list: NULL, a node, or -1. */
  datatype Mark<D> = Start | At(node: Node<D>) | Finished
}
