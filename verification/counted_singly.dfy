/** The singly linked lists and queues that keep an element count:
    `LinkedListPrime` of main/SLL.py, `SinglyLinkedList` of analyze/SLL.py
    and `BasicSLLQueue` of analyze/sll_queque.py. Their pointer updates are
    those of `Singly`; this module adds the count, the `IndexError` raised on
    an empty list, and the splicing concatenation. */
module CountedSingly {
  import opened Outcome
  import opened Arena
  import Singly

  /** The list invariant: a singly linked chain over `ns` and a count equal
      to its length. */
  ghost predicate Valid<T>(h: Heap<T>, q: Header, ns: seq<Addr>) {
    Chain(h, q.head, q.tail, ns) && q.size == |ns|
  }

  /** The header `__init__` builds and a donor is reset to. */
  const Empty := Header(Null, Null, 0)

  function EndsOf(q: Header): Ends {
    Ends(q.head, q.tail)
  }

  /** `addfirst`: the value becomes the head; a list that was empty gets it
      as its tail too. Afterwards the head is set and the count positive. */
  function AddFirst<T>(h: Heap<T>, q: Header, x: T, ghost ns: seq<Addr>): (r: Upd<T, Header>)
    requires Valid(h, q, ns)
    ensures Valid(r.heap, r.q, [h.free] + ns)
    ensures Values(r.heap, [h.free] + ns) == [x] + Values(h, ns)
    ensures r.q.head != Null && r.q.size > 0
    ensures Frame(h, r.heap, ns)
  {
    var u := Singly.AddFirst(h, EndsOf(q), x, ns);
    Upd(u.heap, Header(u.q.head, u.q.tail, q.size + 1))
  }

  /** `addlast` / `enqueue`: the value goes behind the tail; a list that was
      empty gets it as its head too. */
  function AddLast<T>(h: Heap<T>, q: Header, x: T, ghost ns: seq<Addr>): (r: Upd<T, Header>)
    requires Valid(h, q, ns)
    ensures Valid(r.heap, r.q, ns + [h.free])
    ensures Values(r.heap, ns + [h.free]) == Values(h, ns) + [x]
    ensures Frame(h, r.heap, ns)
  {
    var u := Singly.AddLast(h, EndsOf(q), x, ns);
    Upd(u.heap, Header(u.q.head, u.q.tail, q.size + 1))
  }

  /** `removefirst` / `dequeue`: `IndexError` and no change on an empty
      list; otherwise the head value, and the tail is cleared when the list
      empties. */
  function RemoveFirst<T>(h: Heap<T>, q: Header, ghost ns: seq<Addr>): (r: Ret<T, Header, Result<T>>)
    requires Valid(h, q, ns)
    ensures |ns| == 0 ==> r.out == Err(IndexError) && r.q == q
    ensures |ns| > 0 ==> r.out == Ok(Values(h, ns)[0])
    ensures |ns| > 0 ==> Valid(r.heap, r.q, ns[1..]) && Values(r.heap, ns[1..]) == Values(h, ns)[1..]
    ensures r.heap == h
  {
    if q.head == Null then Ret(h, q, Err(IndexError))
    else
      var u := Singly.RemoveFirst(h, EndsOf(q), ns);
      Ret(u.heap, Header(u.q.head, u.q.tail, q.size - 1), Ok(u.out.value))
  }

  /** `peek`: the head value, or `IndexError` on an empty list. */
  function Peek<T>(h: Heap<T>, q: Header, ghost ns: seq<Addr>): (r: Result<T>)
    requires Valid(h, q, ns)
    ensures |ns| == 0 <==> r == Err(IndexError)
    ensures |ns| > 0 ==> r == Ok(Values(h, ns)[0])
  {
    if q.size == 0 then Err(IndexError)
    else
      assert q.head == At(ns[0]);
      Ok(h.cells[q.head.addr].data)
  }

  /** `is_empty` decided by the count (analyze/sll_queque.py). */
  function IsEmpty<T>(h: Heap<T>, q: Header, ghost ns: seq<Addr>): (r: bool)
    requires Valid(h, q, ns)
    ensures r <==> Values(h, ns) == []
  {
    q.size == 0
  }

  /** `is_empty` decided by the head (analyze/SLL.py). */
  function HeadIsNone<T>(h: Heap<T>, q: Header, ghost ns: seq<Addr>): (r: bool)
    requires Valid(h, q, ns)
    ensures r <==> Values(h, ns) == []
  {
    q.head == Null
  }

  /** `__len__`: the count field. */
  function Len<T>(h: Heap<T>, q: Header, ghost ns: seq<Addr>): (r: int)
    requires Valid(h, q, ns)
    ensures r == |Values(h, ns)|
  {
    q.size
  }

  /** `removelast`: `IndexError` and no change on an empty list; otherwise
      the tail value, found by walking from the head to the node before the
      tail, which becomes the tail. */
  method RemoveLast<T>(h: Heap<T>, q: Header, ghost ns: seq<Addr>) returns (r: Ret<T, Header, Result<T>>)
    requires Valid(h, q, ns)
    ensures |ns| == 0 ==> r.out == Err(IndexError) && r.heap == h && r.q == q
    ensures |ns| > 0 ==> r.out == Ok(Values(h, ns)[|ns| - 1])
    ensures |ns| > 0 ==> Valid(r.heap, r.q, ns[..|ns| - 1])
    ensures |ns| > 0 ==> Values(r.heap, ns[..|ns| - 1]) == Values(h, ns)[..|ns| - 1]
    ensures Frame(h, r.heap, ns)
  {
    if q.head == Null {
      FrameRefl(h, ns);
      return Ret(h, q, Err(IndexError));
    }
    var u := Singly.RemoveLast(h, EndsOf(q), ns);
    r := Ret(u.heap, Header(u.q.head, u.q.tail, q.size - 1), Ok(u.out.value));
  }

  /** `__iadd__` / `iconcat` on two different lists, as written: the splice,
      `other`'s count added to `self`'s, and `other` reset to empty. An
      empty `other` changes nothing. */
  function IConcat<T>(h: Heap<T>, self: Header, other: Header, ghost ns: seq<Addr>, ghost ms: seq<Addr>): (r: Two<T, Header>)
    requires Valid(h, self, ns) && Valid(h, other, ms) && Disjoint(ns, ms)
    ensures Valid(r.heap, r.q, ns + ms)
    ensures Values(r.heap, ns + ms) == Values(h, ns) + Values(h, ms)
    ensures r.other == Empty
    ensures |ms| == 0 ==> r.heap == h && r.q == self
    ensures |ns| == 0 ==> r.heap == h && r.q == other
    ensures Frame(h, r.heap, ns) && r.heap.free == h.free
  {
    if other.head == Null then Two(h, self, other)
    else
      var u := Singly.Splice(h, EndsOf(self), EndsOf(other), ns, ms);
      Two(u.heap, Header(u.q.head, u.q.tail, self.size + other.size), Empty)
  }

  /** `l += l` (or `q.iconcat(q)`), the same statements with `other is
      self`: the tail is linked to the head, the count doubles, and then
      resetting "other" resets the list itself. */
  function IConcatOntoItself<T>(h: Heap<T>, q: Header, ghost ns: seq<Addr>): (r: Upd<T, Header>)
    requires Valid(h, q, ns)
    ensures |ns| == 0 ==> r.heap == h && r.q == q
    ensures |ns| > 0 ==> r.q == Empty
    ensures |ns| > 0 ==> ns[|ns| - 1] in r.heap.cells && r.heap.cells[ns[|ns| - 1]].next == At(ns[0])
    ensures Frame(h, r.heap, ns) && r.heap.free == h.free
  {
    if q.head == Null then Upd(h, q)
    else
      assert q.head == At(ns[0]) && q.tail == At(ns[|ns| - 1]);
      assert ns[|ns| - 1] in ns;
      Upd(SetNext(h, q.tail.addr, q.head), Empty)
  }

  /** The aliased call loses every value and leaks its nodes as a cycle: a
      non-empty list concatenated onto itself ends empty, where doubling its
      contents was meant, and following `next` from its old head returns to
      that head. */
  lemma OntoItselfLosesValues<T>(h: Heap<T>, q: Header, ns: seq<Addr>)
    requires Valid(h, q, ns) && |ns| > 0
    ensures Len(h, q, ns) > 0 && IConcatOntoItself(h, q, ns).q == Empty
    ensures Walk(IConcatOntoItself(h, q, ns).heap, At(ns[0]), |ns|) == At(ns[0])
  {
    var h' := IConcatOntoItself(h, q, ns).heap;
    forall j | 0 <= j < |ns| - 1 ensures h'.cells[ns[j]].next == At(ns[j + 1]) {
      assert ns[j] != ns[|ns| - 1];
    }
    WalkAlong(h', ns, |ns| - 1);
    WalkStep(h', At(ns[0]), |ns| - 1);
  }

  /** `self += other` with shared nodes handled. Two singly linked lists
      share nodes exactly when they end at the same tail: the aliased call
      (`other is self`), or two lists that meet, as `r = a + b` of main/SLL.py
      leaves `r` and `b`. Lists that share nodes get a fresh chain holding
      copies of both, since linking the tail would close a cycle or change
      `other`; separate lists are spliced as written. Afterwards `other` is
      `self` when both name the same list and empty otherwise. */
  method Concat<T>(h: Heap<T>, self: Header, other: Header, ghost ns: seq<Addr>, ghost ms: seq<Addr>)
    returns (r: Two<T, Header>, ghost rs: seq<Addr>)
    requires Valid(h, self, ns) && Valid(h, other, ms)
    ensures Valid(r.heap, r.q, rs)
    ensures Values(r.heap, rs) == Values(h, ns) + Values(h, ms)
    ensures Frame(h, r.heap, ns + ms)
    ensures Disjoint(ns, ms) ==> rs == ns + ms && r.other == Empty
    ensures !Disjoint(ns, ms) ==> Above(rs, h.free)
    ensures !Disjoint(ns, ms) ==> r.other == (if self.head == other.head then r.q else Empty)
  {
    SharedNodeSameTail(h, ns, ms);
    if self.tail != Null && self.tail == other.tail {
      var h', e, n, rs' := Singly.Add(h, EndsOf(self), EndsOf(other), ns, ms);
      var q := Header(e.head, e.tail, self.size + other.size);
      r, rs := Two(h', q, if self.head == other.head then q else Empty), rs';
    } else {
      r, rs := IConcat(h, self, other, ns, ms), ns + ms;
    }
  }
}
