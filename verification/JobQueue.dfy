/** The two job queues of iked/crypto_workers.c: a singly linked list kept with a pointer to
    the link that the next job will be stored in.  Each operation is one lock section of the
    state machine in module WorkerPool, whose pending and done fields are Contents(). */
module JobQueue {
  import opened WorkerPool

  class Node {
    const job: Job
    var next: Node?

    constructor (job: Job)
      ensures this.job == job && next == null
    {
      this.job := job;
      next := null;
    }
  }

  /** The nodes, first to last, are linked in this order and end in null. */
  ghost predicate Chain(first: Node?, nodes: seq<Node>)
    reads nodes
  {
    && (nodes == [] <==> first == null)
    && (nodes != [] ==> first == nodes[0] && nodes[|nodes| - 1].next == null)
    && (forall i | 0 <= i < |nodes| - 1 :: nodes[i].next == nodes[i + 1])
    && (forall i, k | 0 <= i < k < |nodes| :: nodes[i] != nodes[k])
  }

  ghost function JobsOf(nodes: seq<Node>): (r: seq<Job>)
    ensures |r| == |nodes|
  {
    seq(|nodes|, i requires 0 <= i < |nodes| => nodes[i].job)
  }

  class Queue {
    var head: Node?
    var tail: Node?   // the node whose next field the tail pointer designates; null: head itself
    ghost var nodes: seq<Node>

    ghost predicate Valid()
      reads this, nodes
    {
      && Chain(head, nodes)
      && tail == if nodes == [] then null else nodes[|nodes| - 1]
    }

    ghost function Contents(): seq<Job>
      reads this
    {
      JobsOf(nodes)
    }

    constructor ()
      ensures Valid() && nodes == []
    {
      head, tail, nodes := null, null, [];
    }

    /** Store the job through the tail pointer and move the pointer to its next field. */
    method Append(j: Node)
      requires Valid() && j !in nodes
      modifies this, nodes, j
      ensures Valid() && nodes == old(nodes) + [j]
      ensures Contents() == old(Contents()) + [j.job]
    {
      j.next := null;
      if tail == null {
        head := j;
      } else {
        tail.next := j;
      }
      tail := j;
      nodes := nodes + [j];
    }

    /** Take the first job; the tail pointer goes back to head when the queue runs empty. */
    method PopHead() returns (j: Node)
      requires Valid() && head != null
      modifies this
      ensures Valid() && old(nodes) == [j] + nodes
      ensures old(Contents()) == [j.job] + Contents()
    {
      j := head;
      head := j.next;
      if head == null {
        tail := null;
      }
      assert |nodes| > 1 ==> j.next == nodes[1];
      nodes := nodes[1..];
    }

    /** Take the whole list and leave the queue empty. */
    method DetachAll() returns (first: Node?)
      requires Valid()
      modifies this
      ensures Valid() && Contents() == [] && Chain(first, old(nodes))
    {
      first := head;
      head, tail, nodes := null, null, [];
    }
  }

  /** The walk over a detached list: it visits every job once, in queue order, and ends. */
  method Walk(first: Node?, ghost nodes: seq<Node>) returns (visited: seq<Job>)
    requires Chain(first, nodes)
    ensures visited == JobsOf(nodes)
  {
    visited := [];
    var j := first;
    ghost var i: nat := 0;
    while j != null
      invariant i <= |nodes| && (j == if i < |nodes| then nodes[i] else null)
      invariant visited == JobsOf(nodes)[..i]
      decreases |nodes| - i
    {
      visited := visited + [j.job];
      j := j.next;
      i := i + 1;
    }
  }
}
