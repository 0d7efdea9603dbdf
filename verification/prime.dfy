/** `LinkedListPrime` and `LinkedQueue` of main/SLL.py. The list's
    `addfirst`, `addlast`, `removefirst`, `removelast`, `__len__` and
    `__iadd__` are those of `CountedSingly`; this module adds its `__add__`,
    which builds the result out of the operands' own nodes, and the queue
    wrapper. */
module PrimeList {
  import opened Outcome
  import opened Arena
  import Singly
  import CountedSingly

  ghost predicate Valid<T>(h: Heap<T>, q: Header, ns: seq<Addr>) {
    CountedSingly.Valid(h, q, ns)
  }

  /** `__add__` as written: an empty operand yields the other one itself;
      otherwise a new header takes `self`'s head and `other`'s tail, and
      `self`'s tail node is linked to `other`'s head. The result holds both
      lists' values, but it shares their nodes and the link is written into
      `self`'s last node. */
  function AddSharing<T>(h: Heap<T>, self: Header, other: Header, ghost ns: seq<Addr>, ghost ms: seq<Addr>): (r: Upd<T, Header>)
    requires Valid(h, self, ns) && Valid(h, other, ms) && Disjoint(ns, ms)
    ensures Valid(r.heap, r.q, ns + ms)
    ensures Values(r.heap, ns + ms) == Values(h, ns) + Values(h, ms)
    ensures |ns| == 0 ==> r.heap == h && r.q == other
    ensures |ns| > 0 && |ms| == 0 ==> r.heap == h && r.q == self
    ensures Frame(h, r.heap, ns) && r.heap.free == h.free
  {
    if self.head == Null then Upd(h, other)
    else if other.head == Null then
      assert ns + ms == ns;
      Upd(h, self)
    else
      var u := Singly.Splice(h, CountedSingly.EndsOf(self), CountedSingly.EndsOf(other), ns, ms);
      Upd(u.heap, Header(self.head, other.tail, self.size + other.size))
  }

  /** What the sharing `__add__` does to its left operand: when both lists
      are non-empty, `self` keeps its header and count, but its last node
      now links into `other`, so `self` is no longer a valid list and a walk
      of `len(self)` steps from its head arrives at `other`'s head instead
      of the end. */
  lemma AddSharingBreaksSelf<T>(h: Heap<T>, self: Header, other: Header, ns: seq<Addr>, ms: seq<Addr>)
    requires Valid(h, self, ns) && Valid(h, other, ms) && Disjoint(ns, ms)
    requires |ns| > 0 && |ms| > 0
    ensures !Valid(AddSharing(h, self, other, ns, ms).heap, self, ns)
    ensures Walk(AddSharing(h, self, other, ns, ms).heap, self.head, |ns|) == other.head != Null
  {
    var h' := AddSharing(h, self, other, ns, ms).heap;
    var js := ns + ms;
    assert Chain(h', First(js), Last(js), js);
    assert js[|ns| - 1] == ns[|ns| - 1] && js[|ns|] == ms[0];
    assert h'.cells[ns[|ns| - 1]].next == At(ms[0]);
    WalkAlong(h', js, |ns|);
  }

  /** `LinkedQueue.enqueue`: `addlast`. */
  function Enqueue<T>(h: Heap<T>, q: Header, x: T, ghost ns: seq<Addr>): (r: Upd<T, Header>)
    requires Valid(h, q, ns)
    ensures Valid(r.heap, r.q, ns + [h.free])
    ensures Values(r.heap, ns + [h.free]) == Values(h, ns) + [x]
    ensures Frame(h, r.heap, ns)
  {
    CountedSingly.AddLast(h, q, x, ns)
  }

  /** `LinkedQueue.dequeue`: `IndexError` when the head is `None`, otherwise
      `removefirst`. */
  function Dequeue<T>(h: Heap<T>, q: Header, ghost ns: seq<Addr>): (r: Ret<T, Header, Result<T>>)
    requires Valid(h, q, ns)
    ensures |ns| == 0 ==> r.out == Err(IndexError) && r.q == q
    ensures |ns| > 0 ==> r.out == Ok(Values(h, ns)[0])
    ensures |ns| > 0 ==> Valid(r.heap, r.q, ns[1..]) && Values(r.heap, ns[1..]) == Values(h, ns)[1..]
    ensures r.heap == h
  {
    if q.head == Null then Ret(h, q, Err(IndexError))
    else CountedSingly.RemoveFirst(h, q, ns)
  }

  /** `LinkedQueue.peek`: `IndexError` when the head is `None`, otherwise the
      head's value. */
  function Peek<T>(h: Heap<T>, q: Header, ghost ns: seq<Addr>): (r: Result<T>)
    requires Valid(h, q, ns)
    ensures |ns| == 0 <==> r == Err(IndexError)
    ensures |ns| > 0 ==> r == Ok(Values(h, ns)[0])
  {
    if q.head == Null then Err(IndexError)
    else
      assert q.head == At(ns[0]);
      Ok(h.cells[q.head.addr].data)
  }

  /** `LinkedQueue.isempty`: the length is zero. */
  function IsEmpty<T>(h: Heap<T>, q: Header, ghost ns: seq<Addr>): (r: bool)
    requires Valid(h, q, ns)
    ensures r <==> Values(h, ns) == []
  {
    CountedSingly.Len(h, q, ns) == 0
  }
}
