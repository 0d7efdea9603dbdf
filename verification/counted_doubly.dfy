/** The doubly linked FIFO queues that keep an element count: `BasicDLLQueue`
    of analyze/dll_queue.py, `Queue` of dll_queque.py and `DLLQueue` of
    analyze/dll_queque.py. They raise `IndexError` on an empty queue and
    concatenate by splicing `other`'s nodes onto `self`. */
module CountedDoubly {
  import opened Outcome
  import opened Arena
  import Doubly

  /** The queue invariant: a doubly linked chain over `ns` and a count equal
      to its length. */
  ghost predicate Valid<T>(h: Heap<T>, q: Header, ns: seq<Addr>) {
    DChain(h, q.head, q.tail, ns) && q.size == |ns|
  }

  /** The header `__init__` builds and a donor is reset to. */
  const Empty := Header(Null, Null, 0)

  function EndsOf(q: Header): Ends {
    Ends(q.head, q.tail)
  }

  /** `enqueue`: the value goes behind the tail, whose back-link is the old
      tail, and the count grows by one. */
  function Enqueue<T>(h: Heap<T>, q: Header, x: T, ghost ns: seq<Addr>): (r: Upd<T, Header>)
    requires Valid(h, q, ns)
    ensures Valid(r.heap, r.q, ns + [h.free])
    ensures Values(r.heap, ns + [h.free]) == Values(h, ns) + [x]
    ensures r.heap.cells[h.free].prev == q.tail
    ensures Frame(h, r.heap, ns)
  {
    var u := Doubly.AddLast(h, EndsOf(q), x, ns);
    Upd(u.heap, Header(u.q.head, u.q.tail, q.size + 1))
  }

  /** `dequeue`: `IndexError` and no change on an empty queue; otherwise the
      head value, with the rest of the chain left as the queue. */
  function Dequeue<T>(h: Heap<T>, q: Header, ghost ns: seq<Addr>): (r: Ret<T, Header, Result<T>>)
    requires Valid(h, q, ns)
    ensures |ns| == 0 ==> r.out == Err(IndexError) && r.heap == h && r.q == q
    ensures |ns| > 0 ==> r.out == Ok(Values(h, ns)[0])
    ensures |ns| > 0 ==> Valid(r.heap, r.q, ns[1..]) && Values(r.heap, ns[1..]) == Values(h, ns)[1..]
    ensures Frame(h, r.heap, ns)
  {
    if q.size == 0 then
      FrameRefl(h, ns);
      Ret(h, q, Err(IndexError))
    else
      var u := Doubly.RemoveFirst(h, EndsOf(q), ns);
      Ret(u.heap, Header(u.q.head, u.q.tail, q.size - 1), Ok(u.out.value))
  }

  /** `peek`: the head value, or `IndexError` on an empty queue. */
  function Peek<T>(h: Heap<T>, q: Header, ghost ns: seq<Addr>): (r: Result<T>)
    requires Valid(h, q, ns)
    ensures |ns| == 0 <==> r == Err(IndexError)
    ensures |ns| > 0 ==> r == Ok(Values(h, ns)[0])
  {
    if q.size == 0 then Err(IndexError)
    else
      assert q.head == At(ns[0]);
      Ok(h.cells[q.head.addr].data)
  }

  /** `is_empty`, decided by the count. */
  function IsEmpty<T>(h: Heap<T>, q: Header, ghost ns: seq<Addr>): (r: bool)
    requires Valid(h, q, ns)
    ensures r <==> Values(h, ns) == []
  {
    q.size == 0
  }

  /** `__len__` / `size`: the count field. */
  function Len<T>(h: Heap<T>, q: Header, ghost ns: seq<Addr>): (r: int)
    requires Valid(h, q, ns)
    ensures r == |Values(h, ns)|
  {
    q.size
  }

  /** `removelast` of analyze/dll_queque.py: `IndexError` on an empty
      queue; otherwise the tail value, with the node before it as the new
      tail. */
  function RemoveLast<T>(h: Heap<T>, q: Header, ghost ns: seq<Addr>): (r: Ret<T, Header, Result<T>>)
    requires Valid(h, q, ns)
    ensures |ns| == 0 ==> r.out == Err(IndexError) && r.heap == h && r.q == q
    ensures |ns| > 0 ==> r.out == Ok(Values(h, ns)[|ns| - 1])
    ensures |ns| > 0 ==> Valid(r.heap, r.q, ns[..|ns| - 1])
    ensures |ns| > 0 ==> Values(r.heap, ns[..|ns| - 1]) == Values(h, ns)[..|ns| - 1]
    ensures Frame(h, r.heap, ns)
  {
    if q.size == 0 then
      FrameRefl(h, ns);
      Ret(h, q, Err(IndexError))
    else
      var u := Doubly.RemoveLast(h, EndsOf(q), ns);
      Ret(u.heap, Header(u.q.head, u.q.tail, q.size - 1), Ok(u.out.value))
  }

  /** `__add__`: a fresh queue, built by enqueueing copies of `a`'s values
      and then `b`'s, whose count is the number of enqueues; both operands
      keep their nodes and contents. */
  method Add<T>(h: Heap<T>, a: Header, b: Header, ghost ns: seq<Addr>, ghost ms: seq<Addr>)
    returns (h': Heap<T>, r: Header, ghost rs: seq<Addr>)
    requires Valid(h, a, ns) && Valid(h, b, ms)
    ensures Valid(h', r, rs) && Values(h', rs) == Values(h, ns) + Values(h, ms)
    ensures Above(rs, h.free)
    ensures Valid(h', a, ns) && Values(h', ns) == Values(h, ns)
    ensures Valid(h', b, ms) && Values(h', ms) == Values(h, ms)
    ensures Frame(h, h', [])
  {
    var e, n;
    h', e, n, rs := Doubly.Add(h, EndsOf(a), EndsOf(b), ns, ms);
    r := Header(e.head, e.tail, n);
  }

  /** `__iadd__` / `iconcat` on two different queues, as written: the
      splice, the count of `other` added to `self`'s, and `other` reset to
      empty. An empty `other` changes nothing. */
  function IConcat<T>(h: Heap<T>, self: Header, other: Header, ghost ns: seq<Addr>, ghost ms: seq<Addr>): (r: Two<T, Header>)
    requires Valid(h, self, ns) && Valid(h, other, ms) && Disjoint(ns, ms)
    ensures Valid(r.heap, r.q, ns + ms)
    ensures Values(r.heap, ns + ms) == Values(h, ns) + Values(h, ms)
    ensures r.other == Empty
    ensures |ms| == 0 ==> r.heap == h && r.q == self
    ensures |ns| == 0 ==> r.heap == h && r.q == other
    ensures Frame(h, r.heap, ns + ms) && r.heap.free == h.free
  {
    if other.head == Null then Two(h, self, other)
    else
      var u := Doubly.Splice(h, EndsOf(self), EndsOf(other), ns, ms);
      Two(u.heap, Header(u.q.head, u.q.tail, self.size + other.size), Empty)
  }

  /** `q += q` (or `q.iconcat(q)`), the same statements with `other is
      self`: the tail is linked to the head both ways, the count doubles,
      and then resetting "other" resets the queue itself. */
  function IConcatOntoItself<T>(h: Heap<T>, q: Header, ghost ns: seq<Addr>): (r: Upd<T, Header>)
    requires Valid(h, q, ns)
    ensures |ns| == 0 ==> r.heap == h && r.q == q
    ensures |ns| > 0 ==> r.q == Empty
    ensures |ns| > 0 ==> ns[0] in r.heap.cells && ns[|ns| - 1] in r.heap.cells
    ensures |ns| > 0 ==> r.heap.cells[ns[|ns| - 1]].next == At(ns[0])
    ensures |ns| > 0 ==> r.heap.cells[ns[0]].prev == At(ns[|ns| - 1])
    ensures Frame(h, r.heap, ns) && r.heap.free == h.free
  {
    if q.head == Null then Upd(h, q)
    else
      assert q.head == At(ns[0]) && q.tail == At(ns[|ns| - 1]);
      assert ns[0] in ns && ns[|ns| - 1] in ns;
      var h1 := SetNext(h, q.tail.addr, q.head);
      var h2 := SetPrev(h1, q.head.addr, q.tail);
      Upd(h2, Empty)
  }

  /** The aliased call loses every value and leaks its nodes as a cycle: a
      non-empty queue concatenated onto itself ends empty, where doubling
      its contents was meant, and following `next` from its old head
      returns to that head. */
  lemma OntoItselfLosesValues<T>(h: Heap<T>, q: Header, ns: seq<Addr>)
    requires Valid(h, q, ns) && |ns| > 0
    ensures Len(h, q, ns) > 0 && IConcatOntoItself(h, q, ns).q == Empty
    ensures Walk(IConcatOntoItself(h, q, ns).heap, At(ns[0]), |ns|) == At(ns[0])
  {
    var h' := IConcatOntoItself(h, q, ns).heap;
    forall j | 0 <= j < |ns| - 1 ensures h'.cells[ns[j]].next == At(ns[j + 1]) {
      assert ns[j] != ns[|ns| - 1];
    }
    WalkAlong(h', ns, |ns| - 1);
    WalkStep(h', At(ns[0]), |ns| - 1);
  }

  /** `self += other` with the aliased call handled: when both headers name
      the same non-empty chain the queue's values are doubled by copying
      (a splice cannot do it), otherwise the two chains are disjoint and are
      spliced as written. Afterwards `other` is `self` in the aliased case
      and empty otherwise. */
  method Concat<T>(h: Heap<T>, self: Header, other: Header, ghost ns: seq<Addr>, ghost ms: seq<Addr>)
    returns (r: Two<T, Header>, ghost rs: seq<Addr>)
    requires Valid(h, self, ns) && Valid(h, other, ms)
    ensures Valid(r.heap, r.q, rs)
    ensures Values(r.heap, rs) == Values(h, ns) + Values(h, ms)
    ensures Frame(h, r.heap, ns + ms)
    ensures self.head != Null && self.head == other.head ==> r.other == r.q
    ensures !(self.head != Null && self.head == other.head) ==> r.other == Empty && rs == ns + ms
  {
    SharedNodeSameChain(h, ns, ms);
    if self.head != Null && self.head == other.head {
      assert ns == ms by {
        assert ns[0] in ns && ns[0] in ms;
      }
      var h', e, n, rs' := Doubly.Add(h, EndsOf(self), EndsOf(self), ns, ns);
      var q := Header(e.head, e.tail, self.size + other.size);
      r, rs := Two(h', q, q), rs';
    } else {
      assert Disjoint(ns, ms);
      r, rs := IConcat(h, self, other, ns, ms), ns + ms;
    }
  }
}
