/** `DoublyLinkedList` and `Queue` of main/DLL.py. Its `ListNode`
    constructor links a new node into its neighbours itself (the writes of
    `Relink.LinkIn`); the list's `_addbetween` and `_remove` decide the new
    head and tail by comparing nodes with the current ends, where
    analyze/DLL.py tests the neighbours against `None`. */
module LinkingList {
  import opened Outcome
  import opened Arena
  import opened Relink
  import CountedDoubly
  import ListQueues

  /** The list invariant: a doubly linked chain over `ns` and a length
      equal to its size. */
  ghost predicate Valid<T>(h: Heap<T>, q: Header, ns: seq<Addr>) {
    CountedDoubly.Valid(h, q, ns)
  }

  /** `__len__`: the length field. */
  function Len<T>(h: Heap<T>, q: Header, ghost ns: seq<Addr>): (r: int)
    requires Valid(h, q, ns)
    ensures r == |Values(h, ns)|
  {
    q.size
  }

  /** `_addbetween(item, before, after)` for the neighbours at position `i`:
      the auto-linking `ListNode(item, before, after)`, then the new node
      becomes the head when `after` is the head and the tail when `before`
      is the tail, and the length grows by one. */
  function AddBetween<T>(h: Heap<T>, q: Header, x: T, before: Ptr, after: Ptr, ghost ns: seq<Addr>, ghost i: nat): (r: Upd<T, Header>)
    requires Valid(h, q, ns) && i <= |ns|
    requires before == Before(ns, i) && after == After(ns, i)
    ensures Valid(r.heap, r.q, Insert(ns, i, h.free))
    ensures Values(r.heap, Insert(ns, i, h.free)) == Values(h, ns)[..i] + [x] + Values(h, ns)[i..]
    ensures Frame(h, r.heap, ns)
  {
    LinkInChain(h, ns, i, x);
    InsertEndsAt(ns, i, h.free);
    EndTests(ns, i);
    var node := At(h.free);
    Upd(LinkIn(h, x, before, after),
        Header(if after == q.head then node else q.head, if before == q.tail then node else q.tail, q.size + 1))
  }

  /** `addfirst`: `_addbetween(item, None, head)`. */
  function AddFirst<T>(h: Heap<T>, q: Header, x: T, ghost ns: seq<Addr>): (r: Upd<T, Header>)
    requires Valid(h, q, ns)
    ensures Valid(r.heap, r.q, [h.free] + ns)
    ensures Values(r.heap, [h.free] + ns) == [x] + Values(h, ns)
    ensures Frame(h, r.heap, ns)
  {
    InsertEnds(ns, h.free);
    SliceEnds(Values(h, ns), x);
    AddBetween(h, q, x, Null, q.head, ns, 0)
  }

  /** `addlast`: `_addbetween(item, tail, None)`. */
  function AddLast<T>(h: Heap<T>, q: Header, x: T, ghost ns: seq<Addr>): (r: Upd<T, Header>)
    requires Valid(h, q, ns)
    ensures Valid(r.heap, r.q, ns + [h.free])
    ensures Values(r.heap, ns + [h.free]) == Values(h, ns) + [x]
    ensures Frame(h, r.heap, ns)
  {
    InsertEnds(ns, h.free);
    SliceEnds(Values(h, ns), x);
    AddBetween(h, q, x, q.tail, Null, ns, |ns|)
  }

  /** The heap writes of `_remove(node)`: `before.link = after` unless the
      node is the head, `after.prev = before` unless it is the tail. On a
      valid list these are the writes of `Relink.Unlink`. */
  function RemoveWrites<T>(h: Heap<T>, q: Header, node: Addr, ghost ns: seq<Addr>, ghost i: nat): (r: Heap<T>)
    requires Valid(h, q, ns) && i < |ns| && node == ns[i]
    ensures node in h.cells
    ensures h.cells[node].prev != Null ==> h.cells[node].prev.addr in h.cells
    ensures h.cells[node].next != Null ==> h.cells[node].next.addr in h.cells
    ensures r == Unlink(h, node)
  {
    UnlinkChain(h, ns, i);
    EndTests(ns, i);
    var before, after := h.cells[node].prev, h.cells[node].next;
    var h1 := if At(node) == q.head then h else SetNext(h, before.addr, after);
    if At(node) == q.tail then h1 else SetPrev(h1, after.addr, before)
  }

  /** `_remove(node)` for the node at position `i`: the head moves to the
      node's successor when the node is the head, the tail to its
      predecessor when it is the tail; the value is returned and the length
      drops by one. */
  function Remove<T>(h: Heap<T>, q: Header, node: Addr, ghost ns: seq<Addr>, ghost i: nat): (r: Ret<T, Header, T>)
    requires Valid(h, q, ns) && i < |ns| && node == ns[i]
    ensures r.out == Values(h, ns)[i]
    ensures Valid(r.heap, r.q, Delete(ns, i))
    ensures Values(r.heap, Delete(ns, i)) == Values(h, ns)[..i] + Values(h, ns)[i + 1..]
    ensures Frame(h, r.heap, ns) && r.heap.free == h.free
  {
    UnlinkChain(h, ns, i);
    DeleteEndsAt(ns, i);
    EndTests(ns, i);
    var before, after := h.cells[node].prev, h.cells[node].next;
    Ret(RemoveWrites(h, q, node, ns, i),
        Header(if At(node) == q.head then after else q.head, if At(node) == q.tail then before else q.tail, q.size - 1),
        h.cells[node].data)
  }

  /** `_remove(head)` on a non-empty list leaves the rest of the chain. */
  lemma RemoveFirstCase<T>(h: Heap<T>, q: Header, ns: seq<Addr>)
    requires Valid(h, q, ns) && |ns| > 0
    ensures q.head == At(ns[0])
    ensures var u := Remove(h, q, ns[0], ns, 0);
      Valid(u.heap, u.q, ns[1..]) && Values(u.heap, ns[1..]) == Values(h, ns)[1..]
  {
    DeleteEnds(ns);
    SliceEnds(Values(h, ns), h.cells[ns[0]].data);
  }

  /** `_remove(tail)` on a non-empty list leaves the chain before it. */
  lemma RemoveLastCase<T>(h: Heap<T>, q: Header, ns: seq<Addr>)
    requires Valid(h, q, ns) && |ns| > 0
    ensures q.tail == At(ns[|ns| - 1])
    ensures var u := Remove(h, q, ns[|ns| - 1], ns, |ns| - 1);
      Valid(u.heap, u.q, ns[..|ns| - 1]) && Values(u.heap, ns[..|ns| - 1]) == Values(h, ns)[..|ns| - 1]
  {
    DeleteEnds(ns);
    SliceEnds(Values(h, ns), h.cells[ns[0]].data);
  }

  /** `removefirst`: `IndexError` on an empty list, otherwise `_remove(head)`. */
  function RemoveFirst<T>(h: Heap<T>, q: Header, ghost ns: seq<Addr>): (r: Ret<T, Header, Result<T>>)
    requires Valid(h, q, ns)
    ensures |ns| == 0 ==> r.out == Err(IndexError) && r.heap == h && r.q == q
    ensures |ns| > 0 ==> r.out == Ok(Values(h, ns)[0])
    ensures |ns| > 0 ==> Valid(r.heap, r.q, ns[1..]) && Values(r.heap, ns[1..]) == Values(h, ns)[1..]
    ensures Frame(h, r.heap, ns) && r.heap.free == h.free
  {
    if q.head == Null then
      FrameRefl(h, ns);
      Ret(h, q, Err(IndexError))
    else
      RemoveFirstCase(h, q, ns);
      var u := Remove(h, q, q.head.addr, ns, 0);
      Ret(u.heap, u.q, Ok(u.out))
  }

  /** `removelast`: `IndexError` on an empty list, otherwise `_remove(tail)`. */
  function RemoveLast<T>(h: Heap<T>, q: Header, ghost ns: seq<Addr>): (r: Ret<T, Header, Result<T>>)
    requires Valid(h, q, ns)
    ensures |ns| == 0 ==> r.out == Err(IndexError) && r.heap == h && r.q == q
    ensures |ns| > 0 ==> r.out == Ok(Values(h, ns)[|ns| - 1])
    ensures |ns| > 0 ==> Valid(r.heap, r.q, ns[..|ns| - 1])
    ensures |ns| > 0 ==> Values(r.heap, ns[..|ns| - 1]) == Values(h, ns)[..|ns| - 1]
    ensures Frame(h, r.heap, ns)
  {
    if q.tail == Null then
      FrameRefl(h, ns);
      Ret(h, q, Err(IndexError))
    else
      RemoveLastCase(h, q, ns);
      var u := Remove(h, q, q.tail.addr, ns, |ns| - 1);
      Ret(u.heap, u.q, Ok(u.out))
  }

  /** `Queue.enqueue`: `addlast`. */
  function Enqueue<T>(h: Heap<T>, q: Header, x: T, ghost ns: seq<Addr>): (r: Upd<T, Header>)
    requires Valid(h, q, ns)
    ensures Valid(r.heap, r.q, ns + [h.free])
    ensures Values(r.heap, ns + [h.free]) == Values(h, ns) + [x]
    ensures Frame(h, r.heap, ns)
  {
    AddLast(h, q, x, ns)
  }

  /** `Queue.dequeue`: `removefirst`, so `IndexError` on an empty queue. */
  function Dequeue<T>(h: Heap<T>, q: Header, ghost ns: seq<Addr>): (r: Ret<T, Header, Result<T>>)
    requires Valid(h, q, ns)
    ensures |ns| == 0 ==> r.out == Err(IndexError) && r.heap == h && r.q == q
    ensures |ns| > 0 ==> r.out == Ok(Values(h, ns)[0])
    ensures |ns| > 0 ==> Valid(r.heap, r.q, ns[1..]) && Values(r.heap, ns[1..]) == Values(h, ns)[1..]
    ensures Frame(h, r.heap, ns)
  {
    RemoveFirst(h, q, ns)
  }

  /** `Queue.is_empty`: the length is zero. */
  function IsEmpty<T>(h: Heap<T>, q: Header, ghost ns: seq<Addr>): (r: bool)
    requires Valid(h, q, ns)
    ensures r <==> Values(h, ns) == []
  {
    Len(h, q, ns) == 0
  }

  /** `Queue.peek`: `IndexError` on an empty queue; otherwise the head value
      is removed and added back at the front. The queue then holds the same
      values, but its first node is a new one, the former head's successor
      chain unchanged behind it. */
  function Peek<T>(h: Heap<T>, q: Header, ghost ns: seq<Addr>): (r: Ret<T, Header, Result<T>>)
    requires Valid(h, q, ns)
    ensures |ns| == 0 ==> r.out == Err(IndexError) && r.heap == h && r.q == q
    ensures |ns| > 0 ==> r.out == Ok(Values(h, ns)[0])
    ensures |ns| > 0 ==> Valid(r.heap, r.q, [h.free] + ns[1..]) && Values(r.heap, [h.free] + ns[1..]) == Values(h, ns)
    ensures |ns| > 0 ==> r.q.size == q.size && r.heap.cells[h.free].data == Values(h, ns)[0]
    ensures Frame(h, r.heap, ns)
  {
    if IsEmpty(h, q, ns) then
      FrameRefl(h, ns);
      Ret(h, q, Err(IndexError))
    else
      var d := RemoveFirst(h, q, ns);
      var a := AddFirst(d.heap, d.q, d.out.value, ns[1..]);
      FrontSplit(Values(h, ns));
      FrameTrans(h, d.heap, a.heap, ns, ns[1..]);
      Ret(a.heap, a.q, d.out)
  }

  /** The answers `Queue` gives to a run of operations. The nodes behind
      the answers change with every step: `peek` replaces the first node by
      a fresh one. */
  function Run<T>(h: Heap<T>, q: Header, ghost ns: seq<Addr>, ops: seq<ListQueues.Op<T>>): seq<Result<T>>
    requires Valid(h, q, ns)
    decreases |ops|
  {
    if ops == [] then []
    else match ops[0]
      case Push(x) =>
        var e := Enqueue(h, q, x, ns);
        Run(e.heap, e.q, ns + [h.free], ops[1..])
      case Pop =>
        var d := Dequeue(h, q, ns);
        [d.out] + Run(d.heap, d.q, if |ns| == 0 then ns else ns[1..], ops[1..])
      case Front =>
        var p := Peek(h, q, ns);
        [p.out] + Run(p.heap, p.q, if |ns| == 0 then ns else [h.free] + ns[1..], ops[1..])
  }

  /** The linked `Queue` is a FIFO queue: on every run of enqueue, dequeue
      and peek operations it answers as the plain list queue holding its
      values does. */
  lemma {:induction false} RunAgrees<T>(h: Heap<T>, q: Header, ns: seq<Addr>, ops: seq<ListQueues.Op<T>>)
    requires Valid(h, q, ns)
    ensures Run(h, q, ns, ops) == ListQueues.Run(ListQueues.Queue(Values(h, ns)), ops)
    decreases |ops|
  {
    if ops != [] {
      match ops[0]
      case Push(x) =>
        var e := Enqueue(h, q, x, ns);
        RunAgrees(e.heap, e.q, ns + [h.free], ops[1..]);
      case Pop =>
        var d := Dequeue(h, q, ns);
        RunAgrees(d.heap, d.q, if |ns| == 0 then ns else ns[1..], ops[1..]);
      case Front =>
        var p := Peek(h, q, ns);
        RunAgrees(p.heap, p.q, if |ns| == 0 then ns else [h.free] + ns[1..], ops[1..]);
    }
  }

  /** A non-empty sequence is its first element followed by the rest. */
  lemma FrontSplit<T>(s: seq<T>)
    ensures |s| > 0 ==> [s[0]] + s[1..] == s
  {
  }
}
