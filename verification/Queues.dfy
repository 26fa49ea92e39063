/** The linked write queue of the client. */
module Queues {
  import opened Bytes

  class QueueNode {
    var next: QueueNode?
    const data: bytes

    constructor (data: bytes)
      ensures this.data == data && next == null
    {
      this.data := data;
      next := null;
    }
  }

  ghost function DataOf(nodes: seq<QueueNode>): seq<bytes> {
    seq(|nodes|, i requires 0 <= i < |nodes| => nodes[i].data)
  }

  class Queue {
    var front: QueueNode?
    var back: QueueNode?
    var length: int
    /** The nodes from front to back. */
    ghost var nodes: seq<QueueNode>
    ghost var Repr: set<QueueNode>

    ghost predicate Valid()
      reads this, Repr
    {
      && (forall i :: 0 <= i < |nodes| ==> nodes[i] in Repr)
      && length == |nodes|
      && (forall i, j :: 0 <= i < j < |nodes| ==> nodes[i] != nodes[j])
      && (forall i :: 0 <= i < |nodes| ==> nodes[i].data != [])
      && (forall i :: 0 <= i < |nodes| - 1 ==> nodes[i].next == nodes[i + 1])
      && (if |nodes| == 0 then front == null && back == null
          else front == nodes[0] && back == nodes[|nodes| - 1] && back.next == null)
    }

    /** The queued messages, oldest first. */
    ghost function Contents(): seq<bytes>
      reads this
    {
      DataOf(nodes)
    }

    constructor ()
      ensures Valid() && Contents() == [] && Repr == {}
    {
      front, back, length, nodes, Repr := null, null, 0, [], {};
    }

    /** Appends a message; an empty one is not queued. */
    method Enqueue(message: bytes)
      requires Valid()
      modifies this, Repr
      ensures Valid() && Contents() == if message == [] then old(Contents()) else old(Contents()) + [message]
      ensures fresh(Repr - old(Repr))
    {
      if |message| == 0 {
        return;
      }
      var node := new QueueNode(message);
      if length == 0 {
        front := node;
        back := front;
      } else {
        back.next := node;
        back := node;
      }
      length := length + 1;
      nodes, Repr := nodes + [node], Repr + {node};
    }

    /** Removes the oldest message; an empty queue answers with no bytes. */
    method Dequeue() returns (message: bytes)
      requires Valid()
      modifies this
      ensures Valid() && Repr == old(Repr)
      ensures if old(Contents()) == [] then message == [] && Contents() == []
              else message == old(Contents())[0] && Contents() == old(Contents())[1..]
    {
      if length == 0 {
        return [];
      }
      message := front.data;
      front := front.next;
      if length == 1 {
        back := null;
      }
      length := length - 1;
      nodes := nodes[1..];
    }
  }
}
