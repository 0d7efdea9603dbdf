/** `DoublyLinkedList` of analyze/DLL.py: a doubly linked list with a length
    field, built on two primitives, `_addbetween` and `_remove`, whose heap
    writes are those of `Relink`. Its header updates test the neighbours of
    the node added or removed against `None`. */
module PositionalList {
  import opened Outcome
  import opened Arena
  import opened Relink
  import Doubly
  import CountedDoubly

  /** The list invariant is that of the counted doubly linked queues: a
      doubly linked chain over `ns` and a length equal to its size. */
  ghost predicate Valid<T>(h: Heap<T>, q: Header, ns: seq<Addr>) {
    CountedDoubly.Valid(h, q, ns)
  }

  /** `__len__`: the length field. */
  function Len<T>(h: Heap<T>, q: Header, ghost ns: seq<Addr>): (r: int)
    requires Valid(h, q, ns)
    ensures r == |Values(h, ns)|
  {
    q.size
  }

  /** `_addbetween(item, before, after)` for two neighbours of the list:
      `before` is the node at position `i - 1` (or `None` at the front) and
      `after` the node at position `i` (or `None` at the back). The new node
      becomes the head when `before` is `None` and the tail when `after` is
      `None`; the length grows by one, and the three assertions the source
      makes afterwards hold. */
  function AddBetween<T>(h: Heap<T>, q: Header, x: T, before: Ptr, after: Ptr, ghost ns: seq<Addr>, ghost i: nat): (r: Upd<T, Header>)
    requires Valid(h, q, ns) && i <= |ns|
    requires before == Before(ns, i) && after == After(ns, i)
    ensures Valid(r.heap, r.q, Insert(ns, i, h.free))
    ensures Values(r.heap, Insert(ns, i, h.free)) == Values(h, ns)[..i] + [x] + Values(h, ns)[i..]
    ensures r.q.size > 0 && r.q.head != Null && r.q.tail != Null
    ensures Frame(h, r.heap, ns)
  {
    LinkInChain(h, ns, i, x);
    InsertEndsAt(ns, i, h.free);
    var node := At(h.free);
    Upd(LinkIn(h, x, before, after),
        Header(if before == Null then node else q.head, if after == Null then node else q.tail, q.size + 1))
  }

  /** `addfirst`: `_addbetween(item, None, head)`. */
  function AddFirst<T>(h: Heap<T>, q: Header, x: T, ghost ns: seq<Addr>): (r: Upd<T, Header>)
    requires Valid(h, q, ns)
    ensures Valid(r.heap, r.q, [h.free] + ns)
    ensures Values(r.heap, [h.free] + ns) == [x] + Values(h, ns)
    ensures Frame(h, r.heap, ns)
  {
    InsertEnds(ns, h.free);
    SliceEnds(Values(h, ns), x);
    AddBetween(h, q, x, Null, q.head, ns, 0)
  }

  /** `addlast`: `_addbetween(item, tail, None)`. */
  function AddLast<T>(h: Heap<T>, q: Header, x: T, ghost ns: seq<Addr>): (r: Upd<T, Header>)
    requires Valid(h, q, ns)
    ensures Valid(r.heap, r.q, ns + [h.free])
    ensures Values(r.heap, ns + [h.free]) == Values(h, ns) + [x]
    ensures Frame(h, r.heap, ns)
  {
    InsertEnds(ns, h.free);
    SliceEnds(Values(h, ns), x);
    AddBetween(h, q, x, q.tail, Null, ns, |ns|)
  }

  /** `_remove(node)` for the node at position `i`: its neighbours are
      linked to each other; a missing neighbour makes the other one the new
      head or tail, and both ends are cleared when the list empties. The
      node's value is returned and the length drops by one. */
  function Remove<T>(h: Heap<T>, q: Header, node: Addr, ghost ns: seq<Addr>, ghost i: nat): (r: Ret<T, Header, T>)
    requires Valid(h, q, ns) && i < |ns| && node == ns[i]
    ensures r.out == Values(h, ns)[i]
    ensures Valid(r.heap, r.q, Delete(ns, i))
    ensures Values(r.heap, Delete(ns, i)) == Values(h, ns)[..i] + Values(h, ns)[i + 1..]
    ensures Frame(h, r.heap, ns)
  {
    UnlinkChain(h, ns, i);
    DeleteEndsAt(ns, i);
    var before, after := h.cells[node].prev, h.cells[node].next;
    var head1 := if before == Null then after else q.head;
    var tail1 := if before == Null && head1 == Null then Null else q.tail;
    var tail2 := if after == Null then before else tail1;
    var head2 := if after == Null && tail2 == Null then Null else head1;
    Ret(Unlink(h, node), Header(head2, tail2, q.size - 1), h.cells[node].data)
  }

  /** `_remove(head)` on a non-empty list leaves the rest of the chain. */
  lemma RemoveFirstCase<T>(h: Heap<T>, q: Header, ns: seq<Addr>)
    requires Valid(h, q, ns) && |ns| > 0
    ensures q.head == At(ns[0])
    ensures var u := Remove(h, q, ns[0], ns, 0);
      Valid(u.heap, u.q, ns[1..]) && Values(u.heap, ns[1..]) == Values(h, ns)[1..]
  {
    DeleteEnds(ns);
    SliceEnds(Values(h, ns), h.cells[ns[0]].data);
  }

  /** `_remove(tail)` on a non-empty list leaves the chain before it. */
  lemma RemoveLastCase<T>(h: Heap<T>, q: Header, ns: seq<Addr>)
    requires Valid(h, q, ns) && |ns| > 0
    ensures q.tail == At(ns[|ns| - 1])
    ensures var u := Remove(h, q, ns[|ns| - 1], ns, |ns| - 1);
      Valid(u.heap, u.q, ns[..|ns| - 1]) && Values(u.heap, ns[..|ns| - 1]) == Values(h, ns)[..|ns| - 1]
  {
    DeleteEnds(ns);
    SliceEnds(Values(h, ns), h.cells[ns[0]].data);
  }

  /** `removefirst`: `IndexError` on an empty list, otherwise `_remove(head)`. */
  function RemoveFirst<T>(h: Heap<T>, q: Header, ghost ns: seq<Addr>): (r: Ret<T, Header, Result<T>>)
    requires Valid(h, q, ns)
    ensures |ns| == 0 ==> r.out == Err(IndexError) && r.heap == h && r.q == q
    ensures |ns| > 0 ==> r.out == Ok(Values(h, ns)[0])
    ensures |ns| > 0 ==> Valid(r.heap, r.q, ns[1..]) && Values(r.heap, ns[1..]) == Values(h, ns)[1..]
    ensures Frame(h, r.heap, ns)
  {
    if q.head == Null then
      FrameRefl(h, ns);
      Ret(h, q, Err(IndexError))
    else
      RemoveFirstCase(h, q, ns);
      var u := Remove(h, q, q.head.addr, ns, 0);
      Ret(u.heap, u.q, Ok(u.out))
  }

  /** `removelast`: `IndexError` on an empty list, otherwise `_remove(tail)`. */
  function RemoveLast<T>(h: Heap<T>, q: Header, ghost ns: seq<Addr>): (r: Ret<T, Header, Result<T>>)
    requires Valid(h, q, ns)
    ensures |ns| == 0 ==> r.out == Err(IndexError) && r.heap == h && r.q == q
    ensures |ns| > 0 ==> r.out == Ok(Values(h, ns)[|ns| - 1])
    ensures |ns| > 0 ==> Valid(r.heap, r.q, ns[..|ns| - 1])
    ensures |ns| > 0 ==> Values(r.heap, ns[..|ns| - 1]) == Values(h, ns)[..|ns| - 1]
    ensures Frame(h, r.heap, ns)
  {
    if q.tail == Null then
      FrameRefl(h, ns);
      Ret(h, q, Err(IndexError))
    else
      RemoveLastCase(h, q, ns);
      var u := Remove(h, q, q.tail.addr, ns, |ns| - 1);
      Ret(u.heap, u.q, Ok(u.out))
  }

  /** `concatenate` (also `__add__` and `__iadd__`, which both modify `self`)
      on two different lists: nothing happens when `other` is empty; an
      empty `self` takes over `other`'s ends and length; otherwise the tail
      of `self` and the head of `other` are linked both ways and the lengths
      added. `other` is then reset to empty. */
  function Concatenate<T>(h: Heap<T>, self: Header, other: Header, ghost ns: seq<Addr>, ghost ms: seq<Addr>): (r: Two<T, Header>)
    requires Valid(h, self, ns) && Valid(h, other, ms) && Disjoint(ns, ms)
    ensures Valid(r.heap, r.q, ns + ms)
    ensures Values(r.heap, ns + ms) == Values(h, ns) + Values(h, ms)
    ensures |ms| == 0 ==> r.heap == h && r.q == self && r.other == other
    ensures |ms| > 0 ==> r.other == CountedDoubly.Empty
    ensures Frame(h, r.heap, ns + ms) && r.heap.free == h.free
  {
    if other.head == Null then
      assert ns + ms == ns;
      FrameRefl(h, ns + ms);
      Two(h, self, other)
    else
      var u := Doubly.Splice(h, CountedDoubly.EndsOf(self), CountedDoubly.EndsOf(other), ns, ms);
      var size := if self.head == Null then other.size else self.size + other.size;
      Two(u.heap, Header(u.q.head, u.q.tail, size), CountedDoubly.Empty)
  }

  /** `clear`: the header is reset; the nodes are left to the collector. */
  function Clear<T>(h: Heap<T>, q: Header, ghost ns: seq<Addr>): (r: Header)
    requires Valid(h, q, ns)
    ensures Valid(h, r, []) && Len(h, r, []) == 0
  {
    CountedDoubly.Empty
  }
}
