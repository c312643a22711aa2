/**
 * Callers of the queue: sequences of operations whose combined effect
 * follows from the contracts of the single operations.
 */
module Scenarios {
  import opened Sequences
  import opened CStrings
  import opened LinkedQueue

  /**
   * Inserting at the head and then removing the head gives back the queue
   * contents and size from before, for every C string including "".
   */
  method InsertHeadThenRemove(q: Queue, s: string)
    requires q.Valid() && NoNul(s)
    modifies q
    ensures q.Valid()
    ensures q.contents == old(q.contents) && q.size == old(q.size)
  {
    var inserted := InsertHead(q, s, true, true);
    var removed := RemoveHead(q, null, 0);
    assert removed;
  }

  /**
   * Reversing twice puts every element back where it was: both the
   * strings and the nodes holding them, with the same size.
   */
  method ReverseTwice(q: Queue)
    requires q.Valid()
    modifies q, q.nodes`next
    ensures q.Valid()
    ensures q.contents == old(q.contents) && q.nodes == old(q.nodes)
    ensures q.size == old(q.size)
  {
    ghost var nodes, contents := q.nodes, q.contents;
    Reverse(q);
    RevSameElements(nodes);
    forall i | 0 <= i < |q.nodes|
      ensures q.nodes[i] in nodes
    {
      assert q.nodes[i] in multiset(q.nodes);
    }
    Reverse(q);
    RevInvolution(nodes);
    RevInvolution(contents);
  }

  /**
   * Removes the head of a non-empty queue into a new buffer of
   * `capacity` cells and returns what a C reader sees there.
   */
  method RemoveString(q: Queue, capacity: nat) returns (s: string)
    requires q.Valid() && |q.contents| > 0 && capacity >= 1
    modifies q
    ensures q.Valid() && q.contents == old(q.contents)[1..]
    ensures s == old(q.contents)[0][..Min(|old(q.contents)[0]|, capacity - 1)]
  {
    var sp := new char[capacity];
    var ok := RemoveHead(q, sp, capacity);
    s := CString(sp[..]);
  }

  /** A new queue given "a" and "b" at the tail and then "z" at the head. */
  method TailTailHeadQueue() returns (q: Queue)
    ensures fresh(q) && q.Valid() && q.contents == ["z", "a", "b"]
  {
    q := New(true);
    var ok := InsertTail(q, "a", true, true);
    ok := InsertTail(q, "b", true, true);
    ok := InsertHead(q, "z", true, true);
  }

  /**
   * A new queue given "a" and "b" at the tail and then "z" at the head
   * has size 3, and removing from the head yields z, a, b in that order.
   */
  method TailTailHead() returns (n: int, order: seq<string>)
    ensures n == 3 && order == ["z", "a", "b"]
  {
    var q := TailTailHeadQueue();
    n := Size(q);
    var first := RemoveString(q, 2);
    assert first == "z" && q.contents == ["a", "b"];
    var second := RemoveString(q, 2);
    assert second == "a" && q.contents == ["b"];
    var third := RemoveString(q, 2);
    assert third == "b";
    order := [first, second, third];
  }

  /**
   * Removing "hello" from a one-element queue into a 3-cell buffer reads
   * back as "he", and the queue is then empty.
   */
  method RemoveIntoSmallBuffer() returns (removed: bool, text: string, n: int)
    ensures removed && text == "he" && n == 0
  {
    var q := New(true);
    var ok := InsertTail(q, "hello", true, true);
    var sp := new char[3];
    removed := RemoveHead(q, sp, 3);
    text := CString(sp[..]);
    n := Size(q);
  }

  /**
   * On a new queue, removing fails and reversing does nothing: the size
   * stays 0.
   */
  method EmptyQueueRequests() returns (removed: bool, n: int)
    ensures !removed && n == 0
  {
    var q := New(true);
    var sp := new char[4];
    removed := RemoveHead(q, sp, 4);
    Reverse(q);
    n := Size(q);
  }

  /**
   * A failed allocation leaves the queue as it was, in either insert, and
   * the size counts only the successful inserts.
   */
  method FailedInserts() returns (n: int, first: string)
    ensures n == 1 && first == "a"
  {
    var q := New(true);
    var ok := InsertHead(q, "a", true, true);
    ok := InsertHead(q, "b", false, true);
    ok := InsertTail(q, "c", true, false);
    ok := InsertHead(null, "d", true, true);
    n := Size(q);
    var sp := new char[2];
    ok := RemoveHead(q, sp, 2);
    first := CString(sp[..]);
  }
}
