/**
 * The string queue of queue.c: a singly linked chain of nodes, each owning
 * one string, with `head`, `tail` and a `queue_size` counter.
 *
 * Every operation is a module-level method taking `q: Queue?`, because the
 * C functions take a pointer that may be NULL. Memory allocation is not
 * observable in Dafny: whether `malloc`/`calloc` succeeds is an explicit
 * boolean input, and releasing a node is modelled by detaching it from the
 * chain.
 */
module LinkedQueue {
  import opened Sequences
  import opened CStrings

  /**
   * A list element: one owned string and the link to the next element.
   * Nothing in queue.c changes a stored string while its node is in a
   * queue, so the string is fixed when the node is made.
   */
  class Node {
    const value: string
    var next: Node?

    constructor (value: string, next: Node?)
      ensures this.value == value && this.next == next
    {
      this.value := value;
      this.next := next;
    }
  }

  class Queue {
    var head: Node?
    var tail: Node?
    var size: int

    /** The chain from `head`, in order. */
    ghost var nodes: seq<Node>
    /** The strings stored in the chain, head first. */
    ghost var contents: seq<string>

    /**
     * The queue invariant: `nodes` is exactly the chain reached from
     * `head` by following `next` (see Chain); `size` is its length; `tail`
     * is its last node; `head` and `tail` are null exactly when it is
     * empty.
     */
    ghost predicate Valid()
      reads this, nodes`next
    {
      |nodes| == size && Chain(nodes, contents) &&
      head == (if |nodes| == 0 then null else nodes[0]) &&
      tail == (if |nodes| == 0 then null else nodes[|nodes| - 1])
    }

    constructor ()
      ensures Valid()
      ensures head == null && tail == null && size == 0
      ensures nodes == [] && contents == []
    {
      head, tail, size := null, null, 0;
      nodes, contents := [], [];
    }
  }

  /**
   * The chain invariant: `nodes` hold `contents` position by position,
   * each node links to the next and the last ends the chain, and every
   * stored string is a C string. No node then occurs twice, so there is
   * no cycle and no sharing (LinkedDistinct).
   */
  ghost predicate Chain(nodes: seq<Node>, contents: seq<string>)
    reads nodes`next
  {
    Holds(nodes, contents) && Linked(nodes) && AllCStrings(contents)
  }

  /** `nodes` hold `contents`, position by position. */
  ghost predicate Holds(nodes: seq<Node>, contents: seq<string>) {
    |nodes| == |contents| &&
    forall i :: 0 <= i < |nodes| ==> nodes[i].value == contents[i]
  }

  /** Each node links to the next one and the last links to `end`. */
  ghost predicate LinkedTo(nodes: seq<Node>, end: Node?)
    reads nodes`next
  {
    (forall i :: 0 <= i < |nodes| - 1 ==> nodes[i].next == nodes[i + 1]) &&
    (|nodes| > 0 ==> nodes[|nodes| - 1].next == end)
  }

  /** Each node links to the next one and the last ends the chain. */
  ghost predicate Linked(nodes: seq<Node>)
    reads nodes`next
  {
    LinkedTo(nodes, null)
  }

  /** Each node links to the previous one and the first ends the chain. */
  ghost predicate LinkedBackwards(nodes: seq<Node>)
    reads nodes`next
  {
    (forall i :: 0 < i < |nodes| ==> nodes[i].next == nodes[i - 1]) &&
    (|nodes| > 0 ==> nodes[0].next == null)
  }

  /** No node occurs twice. */
  ghost predicate Distinct(nodes: seq<Node>) {
    forall i, j :: 0 <= i < j < |nodes| ==> nodes[i] != nodes[j]
  }

  /** Every stored string is a C string. */
  ghost predicate AllCStrings(contents: seq<string>) {
    forall i :: 0 <= i < |contents| ==> NoNul(contents[i])
  }

  /**
   * A chain that ends in null visits no node twice: two equal entries
   * would have equal successors all the way to the end, where one of them
   * ends the chain and the other does not.
   */
  lemma {:induction false} LinkedDistinct(nodes: seq<Node>)
    requires Linked(nodes)
    ensures Distinct(nodes)
  {
    forall i, j | 0 <= i < j < |nodes|
      ensures nodes[i] != nodes[j]
    {
      if nodes[i] == nodes[j] {
        SameNodeAhead(nodes, i, j);
      }
    }
  }

  /** Two positions of a null-ended chain never hold the same node. */
  lemma {:induction false} SameNodeAhead(nodes: seq<Node>, i: nat, j: nat)
    requires Linked(nodes)
    requires i < j < |nodes| && nodes[i] == nodes[j]
    ensures false
    decreases |nodes| - j
  {
    if j < |nodes| - 1 {
      assert nodes[i + 1] == nodes[i].next == nodes[j].next == nodes[j + 1];
      SameNodeAhead(nodes, i + 1, j + 1);
    }
  }

  /** A new node linked in front of a chain extends it at the front. */
  lemma {:induction false} PrependChain(node: Node, nodes: seq<Node>, contents: seq<string>)
    requires Chain(nodes, contents)
    requires node !in nodes && NoNul(node.value)
    requires node.next == if nodes == [] then null else nodes[0]
    ensures Chain([node] + nodes, [node.value] + contents)
  {
  }

  /** The chain without its last node ends by linking to that node. */
  lemma {:induction false} ChainPrefix(nodes: seq<Node>, contents: seq<string>)
    requires Chain(nodes, contents) && |nodes| > 0
    ensures LinkedTo(nodes[..|nodes| - 1], nodes[|nodes| - 1])
    ensures nodes[|nodes| - 1] !in nodes[..|nodes| - 1]
  {
    LinkedDistinct(nodes);
  }

  /**
   * A chain whose last node has been relinked to a new node, which ends
   * the chain, extends it at the back.
   */
  lemma {:induction false} AppendChain(node: Node, nodes: seq<Node>, contents: seq<string>)
    requires Holds(nodes, contents) && AllCStrings(contents)
    requires |nodes| > 0 ==>
      LinkedTo(nodes[..|nodes| - 1], nodes[|nodes| - 1]) && nodes[|nodes| - 1].next == node
    requires node !in nodes && NoNul(node.value) && node.next == null
    ensures Chain(nodes + [node], contents + [node.value])
  {
  }

  /** Dropping the first node leaves a chain. */
  lemma {:induction false} DropFirstChain(nodes: seq<Node>, contents: seq<string>)
    requires Chain(nodes, contents) && |nodes| > 0
    ensures Chain(nodes[1..], contents[1..])
  {
  }

  /**
   * A chain whose links all point backwards is, read from its last node,
   * a forward chain holding the same strings in the opposite order.
   */
  lemma {:induction false} ReversedChain(nodes: seq<Node>, contents: seq<string>)
    requires LinkedBackwards(nodes) && Holds(nodes, contents)
    requires AllCStrings(contents)
    ensures Chain(Rev(nodes), Rev(contents))
  {
    var n := |nodes|;
    forall k | 0 <= k < n
      ensures Rev(nodes)[k] == nodes[n - 1 - k] && Rev(contents)[k] == contents[n - 1 - k]
    {
      RevIndex(nodes, k);
      RevIndex(contents, k);
    }
  }

  /**
   * `q_new`: an empty queue, or null when the queue record cannot be
   * allocated.
   */
  method New(recordAllocated: bool) returns (q: Queue?)
    ensures q != null <==> recordAllocated
    ensures q != null ==> fresh(q) && q.Valid()
    ensures q != null ==> q.head == null && q.tail == null && q.size == 0 && q.contents == []
  {
    if !recordAllocated {
      return null;
    }
    q := new Queue();
  }

  /**
   * `q_free`: walks the chain from `head`, releasing each node. Releasing
   * is modelled by detaching the node (its link is cleared); afterwards
   * no node of the queue is reachable from `head` or from another node.
   */
  method Free(q: Queue?)
    requires q != null ==> q.Valid()
    modifies q, (if q == null then [] else q.nodes)`next
    ensures q != null ==> q.head == null
    ensures q != null ==> forall k :: 0 <= k < |old(q.nodes)| ==> old(q.nodes)[k].next == null
  {
    if q == null {
      return;
    }
    var cur := q.head;
    if cur == null {
      // queue.c:35-36 returns here without freeing the record itself;
      // the leak has no counterpart in this model.
      return;
    }
    ghost var chain := q.nodes;
    ghost var n := |chain|;
    ghost var i := 0;
    LinkedDistinct(chain);
    while q.head != null
      invariant q.nodes == chain
      invariant 0 <= i <= n
      invariant q.head == if i < n then chain[i] else null
      invariant forall k :: 0 <= k < i ==> chain[k].next == null
      invariant forall k :: i <= k < n - 1 ==> chain[k].next == chain[k + 1]
      invariant i < n ==> chain[n - 1].next == null
      invariant Distinct(chain)
      decreases n - i
    {
      cur := q.head;
      q.head := cur.next;
      cur.next := null;
      i := i + 1;
    }
  }

  /**
   * `q_insert_head`: on success (the queue exists and both the node and
   * the copy of `s` were allocated) `s` becomes the first element, and the
   * new node is also the tail when the queue was empty. On failure the
   * queue is untouched. The stored value is `s` itself, a value, so no
   * later change to the caller's storage can reach it.
   */
  method InsertHead(q: Queue?, s: string, nodeAllocated: bool, valueAllocated: bool)
    returns (ok: bool)
    requires q != null ==> q.Valid()
    requires NoNul(s)
    modifies q
    ensures ok <==> q != null && nodeAllocated && valueAllocated
    ensures q != null ==> q.Valid()
    ensures ok ==> q.contents == [s] + old(q.contents) && q.size == old(q.size) + 1
    ensures ok ==> fresh(q.head) && q.nodes == [q.head] + old(q.nodes)
    ensures ok && old(q.head) == null ==> q.tail == q.head
    ensures ok && old(q.head) != null ==> q.tail == old(q.tail)
    ensures !ok && q != null ==> unchanged(q)
  {
    // The documented contract (queue.c:55) returns false for a NULL queue;
    // the body (queue.c:59-80) never tests q and dereferences it.
    if q == null || !nodeAllocated || !valueAllocated {
      return false;
    }
    var node := new Node(s, q.head);
    PrependChain(node, q.nodes, q.contents);
    q.size := q.size + 1;
    q.head := node;
    if q.tail == null {
      q.tail := node;
    }
    q.nodes := [node] + q.nodes;
    q.contents := [s] + q.contents;
    ok := true;
  }

  /**
   * `q_insert_tail`: on success `s` becomes the last element, linked after
   * the old tail, and the new node is also the head when the queue was
   * empty. A null queue or a failed allocation returns false and changes
   * nothing.
   */
  method InsertTail(q: Queue?, s: string, nodeAllocated: bool, valueAllocated: bool)
    returns (ok: bool)
    requires q != null ==> q.Valid()
    requires NoNul(s)
    modifies q, (if q == null || q.tail == null then {} else {q.tail})`next
    ensures ok <==> q != null && nodeAllocated && valueAllocated
    ensures q != null ==> q.Valid()
    ensures ok ==> q.contents == old(q.contents) + [s] && q.size == old(q.size) + 1
    ensures ok ==> fresh(q.tail) && q.nodes == old(q.nodes) + [q.tail]
    ensures ok && old(q.head) == null ==> q.head == q.tail
    ensures ok && old(q.head) != null ==> q.head == old(q.head)
    ensures !ok && q != null ==> unchanged(q)
    ensures !ok && q != null && old(q.tail) != null ==> old(q.tail).next == old(q.tail.next)
  {
    if q == null {
      return false;
    }
    // queue.c:106 does not test the node allocation before writing through
    // it; the documented contract (queue.c:95) returns false instead.
    if !nodeAllocated || !valueAllocated {
      return false;
    }
    var node := new Node(s, null);
    var last := q.tail;
    if q.head == null {
      q.head := node;
    } else {
      ChainPrefix(q.nodes, q.contents);
      last.next := node;
    }
    AppendChain(node, q.nodes, q.contents);
    q.tail := node;
    q.size := q.size + 1;
    q.nodes := q.nodes + [node];
    q.contents := q.contents + [s];
    ok := true;
  }

  /**
   * `q_remove_head`: a null or empty queue returns false and nothing
   * changes. Otherwise the first element is removed (both `head` and
   * `tail` become null when it was the only one), and when `sp` is given
   * with room for at least the terminator, the removed string, truncated
   * to `bufsize - 1` characters, is written into it followed by a
   * terminator. `bufsize` is the capacity of `sp`.
   */
  method RemoveHead(q: Queue?, sp: array?<char>, bufsize: nat) returns (ok: bool)
    requires q != null ==> q.Valid()
    requires sp != null ==> bufsize <= sp.Length
    modifies q, sp
    ensures ok <==> q != null && old(q.head) != null
    ensures q != null ==> q.Valid()
    ensures ok ==> q.contents == old(q.contents)[1..] && q.size == old(q.size) - 1
    ensures ok ==> q.nodes == old(q.nodes)[1..]
    ensures ok && sp != null ==> sp[..] == CopyOut(old(sp[..]), old(q.contents)[0], bufsize)
    ensures ok && sp != null && bufsize >= 1 ==>
      CString(sp[..]) == old(q.contents)[0][..Min(|old(q.contents)[0]|, bufsize - 1)]
    ensures !ok && q != null ==> unchanged(q)
    ensures !ok && sp != null ==> unchanged(sp)
  {
    if q == null || q.head == null {
      return false;
    }
    var value := q.head.value;
    // queue.c:151-158 copies sizeof(int) or sizeof(size_t) bytes instead of
    // the string, writes the terminator at sp[bufsize - 1], and neither
    // tests sp for NULL nor guards bufsize == 0 (CStrings.CopyAsWritten).
    // The documented copy is modelled here.
    if sp != null {
      ghost var before := sp[..];
      WriteOut(sp, value, bufsize);
      if bufsize >= 1 {
        CopyOutReadBack(before, value, bufsize);
      }
    }
    // queue.c:161-166 neither releases the node nor clears the tail when
    // the queue becomes empty (RemoveHeadAsWritten); both are done here.
    DropFirstChain(q.nodes, q.contents);
    q.head := q.head.next;
    if q.head == null {
      q.tail := null;
    }
    q.size := q.size - 1;
    q.nodes := q.nodes[1..];
    q.contents := q.contents[1..];
    ok := true;
  }

  /**
   * `q_remove_head` as queue.c:142-169 relinks the queue, leaving out the
   * copy into `sp` (see CStrings.CopyAsWritten): removing the only element
   * clears `head` but leaves `tail` on the removed node, so the result
   * breaks the queue invariant.
   */
  method RemoveHeadAsWritten(q: Queue?) returns (ok: bool)
    requires q != null ==> q.Valid()
    modifies q
    ensures ok <==> q != null && old(q.head) != null
    ensures ok ==> q.contents == old(q.contents)[1..] && q.size == old(q.size) - 1
    ensures ok && old(q.size) == 1 ==> q.head == null && q.tail == old(q.head) != null
    ensures ok && old(q.size) == 1 ==> !q.Valid()
  {
    if q == null || q.head == null {
      return false;
    }
    q.head := q.head.next;
    q.size := q.size - 1;
    q.nodes := q.nodes[1..];
    q.contents := q.contents[1..];
    ok := true;
  }

  /** `q_size`: the number of elements, or 0 for a null queue. */
  function Size(q: Queue?): (n: int)
    reads q, (if q == null then [] else q.nodes)`next
    requires q != null ==> q.Valid()
    ensures q == null ==> n == 0
    ensures q != null ==> n == |q.contents| && (n == 0 <==> q.head == null)
  {
    if q == null then 0 else q.size
  }

  /**
   * `q_reverse`: relinks every node backwards in one pass, allocating and
   * releasing nothing. The elements end in the opposite order, the old
   * head is the new tail and the old tail the new head, and the size is
   * unchanged. A null or empty queue is left as it is.
   */
  method Reverse(q: Queue?)
    requires q != null ==> q.Valid()
    modifies q, (if q == null then [] else q.nodes)`next
    ensures q != null ==> q.Valid()
    ensures q != null ==> q.contents == Rev(old(q.contents)) && q.nodes == Rev(old(q.nodes))
    ensures q != null ==> q.size == old(q.size)
    ensures q != null ==> q.head == old(q.tail) && q.tail == old(q.head)
    ensures q != null && old(q.head) == null ==> unchanged(q)
  {
    if q == null || q.head == null {
      return;
    }
    ghost var chain, contents := q.nodes, q.contents;
    assert Linked(chain) && Holds(chain, contents) && AllCStrings(contents);
    q.nodes, q.contents := Rev(chain), Rev(contents);
    RelinkBackwards(q, chain);
    ReversedQueue(q, chain, contents);
  }

  /**
   * A queue whose fields describe a backwards-linked chain read from its
   * last node satisfies the queue invariant.
   */
  lemma {:induction false} ReversedQueue(q: Queue, chain: seq<Node>, contents: seq<string>)
    requires |chain| > 0 && LinkedBackwards(chain) && Holds(chain, contents) && AllCStrings(contents)
    requires q.nodes == Rev(chain) && q.contents == Rev(contents) && q.size == |chain|
    requires q.head == chain[|chain| - 1] && q.tail == chain[0]
    ensures q.Valid()
  {
    ReversedChain(chain, contents);
  }

  /**
   * The relinking pass of `q_reverse` (queue.c:195-206) over a non-empty
   * chain starting at `head`: the first node becomes the tail, then each
   * following node in turn is pointed back at its predecessor and made the
   * head. Only links and `head`/`tail` change.
   */
  method RelinkBackwards(q: Queue, ghost chain: seq<Node>)
    requires |chain| > 0 && q.head == chain[0]
    requires Linked(chain)
    modifies q`head, q`tail, chain`next
    ensures LinkedBackwards(chain)
    ensures q.head == chain[|chain| - 1] && q.tail == chain[0]
  {
    ghost var n := |chain|;
    LinkedDistinct(chain);
    var prev := q.head;
    var next := q.head.next;
    q.tail := q.head;
    q.head.next := null;
    ghost var i := 1;
    while next != null
      modifies q`head, chain`next
      invariant 1 <= i <= n
      invariant q.head == chain[i - 1] && prev == chain[i - 1]
      invariant next == if i < n then chain[i] else null
      invariant chain[0].next == null
      invariant forall k :: 0 < k < i ==> chain[k].next == chain[k - 1]
      invariant forall k :: i <= k < n - 1 ==> chain[k].next == chain[k + 1]
      invariant i < n ==> chain[n - 1].next == null
      decreases n - i
    {
      q.head := next;
      next := next.next;
      q.head.next := prev;
      prev := q.head;
      i := i + 1;
    }
  }

  /** Elements in ascending order, comparing strings character by character. */
  predicate Ascending(s: seq<string>) {
    forall i, j :: 0 <= i < j < |s| ==> LexLessEq(s[i], s[j])
  }

  /** `strcmp(a, b) <= 0` for C strings. */
  predicate LexLessEq(a: string, b: string) {
    a == [] || (b != [] && (a[0] < b[0] || (a[0] == b[0] && LexLessEq(a[1..], b[1..]))))
  }

  /**
   * `q_sort`: its body is empty, so it changes nothing. Its comment
   * promises no effect on a null, empty or one-element queue; those
   * queues are already in ascending order.
   */
  method Sort(q: Queue?)
    requires q != null ==> q.Valid()
    ensures q != null ==> q.Valid() && q.contents == old(q.contents)
    ensures q != null && |q.contents| <= 1 ==> Ascending(q.contents)
  {
  }
}
