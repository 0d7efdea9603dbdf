/** `SinglyLinkedList` of analyze/SLL.py. Its `addfirst`, `addlast`,
    `__len__` and `__iadd__` are those of `CountedSingly` (and `is_empty`
    is `CountedSingly.HeadIsNone`); this module adds the operations that
    differ: `removefirst` without an emptiness check, `removelast`
    answering `None` on an empty list, and the copying `__copy__` and
    `__add__`. */
module CopyingList {
  import opened Outcome
  import opened Arena
  import Singly
  import CountedSingly

  ghost predicate Valid<T>(h: Heap<T>, q: Header, ns: seq<Addr>) {
    CountedSingly.Valid(h, q, ns)
  }

  /** `removefirst`: no emptiness check, so on an empty list reading
      `self._head.data` fails with `AttributeError`; otherwise the head
      value. */
  function RemoveFirst<T>(h: Heap<T>, q: Header, ghost ns: seq<Addr>): (r: Ret<T, Header, Result<T>>)
    requires Valid(h, q, ns)
    ensures |ns| == 0 ==> r.out == Err(AttributeError) && r.q == q
    ensures |ns| > 0 ==> r.out == Ok(Values(h, ns)[0])
    ensures |ns| > 0 ==> Valid(r.heap, r.q, ns[1..]) && Values(r.heap, ns[1..]) == Values(h, ns)[1..]
    ensures r.heap == h
  {
    if q.head == Null then Ret(h, q, Err(AttributeError))
    else CountedSingly.RemoveFirst(h, q, ns)
  }

  /** `removelast`: `None` and no change on an empty list; otherwise the
      tail value, the node before the tail becoming the tail. */
  method RemoveLast<T>(h: Heap<T>, q: Header, ghost ns: seq<Addr>) returns (r: Ret<T, Header, Option<T>>)
    requires Valid(h, q, ns)
    ensures |ns| == 0 ==> r.out == None && r.heap == h && r.q == q
    ensures |ns| > 0 ==> r.out == Some(Values(h, ns)[|ns| - 1])
    ensures |ns| > 0 ==> Valid(r.heap, r.q, ns[..|ns| - 1])
    ensures |ns| > 0 ==> Values(r.heap, ns[..|ns| - 1]) == Values(h, ns)[..|ns| - 1]
    ensures Frame(h, r.heap, ns)
  {
    if CountedSingly.HeadIsNone(h, q, ns) {
      FrameRefl(h, ns);
      return Ret(h, q, None);
    }
    var u := CountedSingly.RemoveLast(h, q, ns);
    r := Ret(u.heap, u.q, Some(u.out.value));
  }

  /** `__copy__`: a new list of fresh nodes holding the same values, with
      the source's length; the source keeps its nodes and values. */
  method Copy<T>(h: Heap<T>, self: Header, ghost ns: seq<Addr>) returns (h': Heap<T>, r: Header, ghost rs: seq<Addr>)
    requires Valid(h, self, ns)
    ensures Valid(h', r, rs) && Values(h', rs) == Values(h, ns)
    ensures Above(rs, h.free) && Disjoint(rs, ns)
    ensures Valid(h', self, ns) && Values(h', ns) == Values(h, ns)
    ensures Frame(h, h', [])
  {
    var e, n;
    h', e, n, rs := Singly.AppendCopies(h, Ends(Null, Null), [], CountedSingly.EndsOf(self), ns);
    assert [] + rs == rs;
    FrameKeepsChain(h, h', [], self.head, self.tail, ns);
    FreshDisjoint(h, ns, rs);
    r := Header(e.head, e.tail, self.size);
  }

  /** `__add__`: a new list of fresh nodes holding copies of `self`'s values
      followed by `other`'s, with the two lengths added; both operands keep
      their nodes and values. */
  method Add<T>(h: Heap<T>, self: Header, other: Header, ghost ns: seq<Addr>, ghost ms: seq<Addr>)
    returns (h': Heap<T>, r: Header, ghost rs: seq<Addr>)
    requires Valid(h, self, ns) && Valid(h, other, ms)
    ensures Valid(h', r, rs) && Values(h', rs) == Values(h, ns) + Values(h, ms)
    ensures Above(rs, h.free) && Disjoint(rs, ns) && Disjoint(rs, ms)
    ensures Valid(h', self, ns) && Values(h', ns) == Values(h, ns)
    ensures Valid(h', other, ms) && Values(h', ms) == Values(h, ms)
    ensures Frame(h, h', [])
  {
    var e, n;
    h', e, n, rs := Singly.Add(h, CountedSingly.EndsOf(self), CountedSingly.EndsOf(other), ns, ms);
    FreshDisjoint(h, ns, rs);
    FreshDisjoint(h, ms, rs);
    r := Header(e.head, e.tail, self.size + other.size);
  }
}
