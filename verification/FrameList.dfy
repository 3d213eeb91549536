/** The doubly linked list of frames that the LRU policy keeps. */
module FrameList {
  import opened Sequences

  class Node {
    var data: nat
    var next: Node?
    var prev: Node?

    constructor (x: nat)
      ensures data == x && next == null && prev == null
    {
      data, next, prev := x, null, null;
    }
  }

  /** `head` with the nodes reachable from it, in order. */
  class List {
    var head: Node?
    ghost var nodes: seq<Node>
    ghost var Repr: set<object>

    /** `next` and `prev` run through `nodes` in opposite directions, and no node occurs twice. */
    ghost predicate Valid()
      reads this, Repr
      ensures Valid() ==> this in Repr
    {
      && this in Repr && (forall i :: 0 <= i < |nodes| ==> nodes[i] in Repr)
      && (head == if nodes == [] then null else nodes[0])
      && (forall i {:trigger nodes[i].next} :: 0 <= i < |nodes| ==>
          nodes[i].next == if i + 1 < |nodes| then nodes[i + 1] else null)
      && (forall i {:trigger nodes[i].prev} :: 0 <= i < |nodes| ==>
          nodes[i].prev == if i == 0 then null else nodes[i - 1])
      && (forall i, j :: 0 <= i < j < |nodes| ==> nodes[i] != nodes[j])
    }

    ghost function Contents(): (r: seq<nat>)
      reads this, nodes
      ensures |r| == |nodes|
    {
      seq(|nodes|, i requires 0 <= i < |nodes| reads this, nodes => nodes[i].data)
    }

    constructor ()
      ensures Valid() && Contents() == [] && fresh(Repr)
    {
      head, nodes, Repr := null, [], {this};
    }

    /** `list_insert_head` */
    method InsertHead(x: nat)
      requires Valid()
      modifies Repr
      ensures Valid() && Contents() == [x] + old(Contents())
      ensures fresh(Repr - old(Repr))
    {
      var newNode := new Node(x);
      if head == null {
        head := newNode;
      } else {
        head.prev := newNode;
        newNode.next := head;
        head := newNode;
      }
      nodes := [newNode] + nodes;
      Repr := Repr + {newNode};
    }

    /**
     `list_remove_tail`.  On a list of one node the program follows the node's null `prev`,
     so such a list is excluded.
     */
    method RemoveTail()
      requires Valid() && |nodes| != 1
      modifies Repr
      ensures Valid() && Repr == old(Repr)
      ensures Contents() == if old(Contents()) == [] then [] else old(Contents()[..|Contents()| - 1])
    {
      if head == null {
        return;
      }
      var ret := head;
      ghost var k := 0;
      while ret.next != null
        invariant 0 <= k < |nodes| && ret == nodes[k]
        decreases |nodes| - k
      {
        ret := ret.next;
        k := k + 1;
      }
      ret.prev.next := null;
      nodes := nodes[..k];
    }

    /** `list_remove_head` */
    method RemoveHead()
      requires Valid()
      modifies Repr
      ensures Valid() && Repr == old(Repr)
      ensures Contents() == if old(Contents()) == [] then [] else old(Contents())[1..]
    {
      if head == null {
        return;
      }
      head := head.next;
      nodes := nodes[1..];
      if head != null {
        head.prev := null;
      }
    }

    /** The two pointer updates of `list_remove` on a node with neighbours on both sides. */
    method Unlink(node: Node, ghost k: nat)
      requires Valid() && 0 < k < |nodes| - 1 && node == nodes[k]
      modifies Repr
      ensures Valid() && Repr == old(Repr)
      ensures Contents() == old(Contents()[..k] + Contents()[k + 1..])
    {
      node.prev.next := node.next;
      node.next.prev := node.prev;
      nodes := nodes[..k] + nodes[k + 1..];
    }

    /** `list_remove`: unlinks the first node holding `x`, if there is one. */
    method Remove(x: nat)
      requires Valid()
      modifies Repr
      ensures Valid() && Contents() == Without(old(Contents()), x)
      ensures Repr == old(Repr)
    {
      var ret := head;
      ghost var k := 0;
      while ret != null
        invariant 0 <= k <= |nodes| && ret == if k == |nodes| then null else nodes[k]
        invariant x !in Contents()[..k]
        decreases |nodes| - k
      {
        if x == ret.data {
          assert Contents()[k] == x;
          WithoutAt(Contents(), k);
          if ret == head {
            assert k == 0;
            RemoveHead();
          } else if ret.next == null {
            RemoveTail();
          } else {
            Unlink(ret, k);
          }
          return;
        }
        ret := ret.next;
        k := k + 1;
      }
      WithoutAbsent(Contents(), x);
    }

    /** The walk of `lru` to the last node: the frame used longest ago. */
    method Last() returns (x: nat)
      requires Valid() && head != null
      ensures x == Contents()[|nodes| - 1]
    {
      var ret := head;
      ghost var k := 0;
      while ret.next != null
        invariant 0 <= k < |nodes| && ret == nodes[k]
        decreases |nodes| - k
      {
        ret := ret.next;
        k := k + 1;
      }
      x := ret.data;
    }
  }
}
