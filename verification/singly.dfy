/** Singly linked queue with `head` and `tail` but no count: the class
    `SLLQueue` of sll_queue.py and `SLLQueue` of data_structures.py, which
    perform the same pointer updates. Removal from an empty queue returns
    Python `None`. The sized singly linked variants reuse these updates. */
module Singly {
  import opened Outcome
  import opened Arena

  /** is_empty: the head is `None`. */
  function IsEmpty<T>(h: Heap<T>, q: Ends, ghost ns: seq<Addr>): (r: bool)
    requires Chain(h, q.head, q.tail, ns)
    ensures r <==> Values(h, ns) == []
  {
    q.head == Null
  }

  /** addFirst / add_first: a new node whose `next` is the old head becomes
      the head; it is also the tail when the queue was empty. Emptiness is
      tested on the tail, as data_structures.py does (`tail is None`);
      sll_queue.py tests `not self.head` instead, which under `Chain` is the
      same test, since the head is `Null` exactly when the tail is. */
  function AddFirst<T>(h: Heap<T>, q: Ends, x: T, ghost ns: seq<Addr>): (r: Upd<T, Ends>)
    requires Chain(h, q.head, q.tail, ns)
    ensures Chain(r.heap, r.q.head, r.q.tail, [h.free] + ns)
    ensures Values(r.heap, [h.free] + ns) == [x] + Values(h, ns)
    ensures Frame(h, r.heap, ns)
  {
    var a := h.free;
    var h1 := Alloc(h, Node(x, Null, q.head));
    Upd(h1, Ends(At(a), if q.tail == Null then At(a) else q.tail))
  }

  /** addLast / add_last: a new node is linked after the tail and becomes the
      tail; it is also the head when the queue was empty. */
  function AddLast<T>(h: Heap<T>, q: Ends, x: T, ghost ns: seq<Addr>): (r: Upd<T, Ends>)
    requires Chain(h, q.head, q.tail, ns)
    ensures Chain(r.heap, r.q.head, r.q.tail, ns + [h.free])
    ensures Values(r.heap, ns + [h.free]) == Values(h, ns) + [x]
    ensures Frame(h, r.heap, ns) && r.heap.free == h.free + 1
  {
    var a := h.free;
    var h1 := Alloc(h, Node(x, Null, Null));
    if q.tail == Null then
      Upd(h1, Ends(At(a), At(a)))
    else
      Upd(SetNext(h1, q.tail.addr, At(a)), Ends(q.head, At(a)))
  }

  /** removeFirst / remove_first: `None` on an empty queue; otherwise the head
      value, the head advances, and the tail is cleared when the queue
      empties. */
  function RemoveFirst<T>(h: Heap<T>, q: Ends, ghost ns: seq<Addr>): (r: Ret<T, Ends, Option<T>>)
    requires Chain(h, q.head, q.tail, ns)
    ensures |ns| == 0 ==> r.out == None && r.heap == h && r.q == q
    ensures |ns| > 0 ==> r.out == Some(Values(h, ns)[0])
    ensures |ns| > 0 ==> Chain(r.heap, r.q.head, r.q.tail, ns[1..])
    ensures |ns| > 0 ==> Values(r.heap, ns[1..]) == Values(h, ns)[1..]
    ensures r.heap == h
  {
    if q.head == Null then Ret(h, q, None)
    else
      assert q.head == At(ns[0]);
      assert |ns| > 1 ==> h.cells[ns[0]].next == At(ns[1]);
      var v := h.cells[q.head.addr].data;
      var head := h.cells[q.head.addr].next;
      Ret(h, Ends(head, if head == Null then Null else q.tail), Some(v))
  }

  /** removeLast: `None` on an empty queue; a single node empties the queue;
      otherwise the loop walks from the head to the node whose `next` is the
      tail, which becomes the tail with its `next` cleared. */
  method RemoveLast<T>(h: Heap<T>, q: Ends, ghost ns: seq<Addr>) returns (r: Ret<T, Ends, Option<T>>)
    requires Chain(h, q.head, q.tail, ns)
    ensures |ns| == 0 ==> r.out == None && r.heap == h && r.q == q
    ensures |ns| > 0 ==> r.out == Some(Values(h, ns)[|ns| - 1])
    ensures |ns| > 0 ==> Chain(r.heap, r.q.head, r.q.tail, ns[..|ns| - 1])
    ensures |ns| > 0 ==> Values(r.heap, ns[..|ns| - 1]) == Values(h, ns)[..|ns| - 1]
    ensures Frame(h, r.heap, ns)
  {
    if q.head == Null {
      return Ret(h, q, None);
    }
    if q.head == q.tail {
      DistinctIndex(ns, 0, |ns| - 1);
      return Ret(h, Ends(Null, Null), Some(h.cells[q.head.addr].data));
    }
    var cur := q.head;
    ghost var k := 0;
    while h.cells[cur.addr].next != q.tail
      invariant 0 <= k < |ns| - 1
      invariant cur == At(ns[k])
      decreases |ns| - k
    {
      cur := h.cells[cur.addr].next;
      k := k + 1;
    }
    DistinctIndex(ns, k + 1, |ns| - 1);
    var v := h.cells[q.tail.addr].data;
    r := Ret(SetNext(h, cur.addr, Null), Ends(q.head, cur), Some(v));
  }

  /** What the copy loop keeps after copying the first `k` source values:
      `q'` is `q` extended by `k` nodes allocated during the loop that hold
      those values, and no node outside `qs` has changed. */
  ghost predicate Copied<T>(h: Heap<T>, qs: seq<Addr>, vs: seq<T>, h': Heap<T>, q': Ends, added: seq<Addr>, k: nat)
  {
    && k <= |vs| && |added| == k
    && InHeap(h, qs)
    && Chain(h', q'.head, q'.tail, qs + added)
    && Above(added, h.free)
    && Frame(h, h', qs)
    && Values(h', qs + added) == Values(h, qs) + vs[..k]
  }

  /** One round of the copy loop: appending the `k`-th value keeps `Copied`. */
  lemma CopyStep<T>(h: Heap<T>, qs: seq<Addr>, vs: seq<T>, h1: Heap<T>, q1: Ends, added: seq<Addr>, k: nat, u: Upd<T, Ends>)
    requires Wf(h) && Copied(h, qs, vs, h1, q1, added, k) && k < |vs|
    requires Chain(u.heap, u.q.head, u.q.tail, qs + added + [h1.free])
    requires Values(u.heap, qs + added + [h1.free]) == Values(h1, qs + added) + [vs[k]]
    requires Frame(h1, u.heap, qs + added)
    ensures Copied(h, qs, vs, u.heap, u.q, added + [h1.free], k + 1)
  {
    assert qs + added + [h1.free] == qs + (added + [h1.free]);
    FrameTransFresh(h, h1, u.heap, qs, added);
    assert vs[..k + 1] == vs[..k] + [vs[k]];
  }

  /** Before the first round nothing is copied. */
  lemma CopyStart<T>(h: Heap<T>, q: Ends, qs: seq<Addr>, vs: seq<T>)
    requires Chain(h, q.head, q.tail, qs)
    ensures Copied(h, qs, vs, h, q, [], 0)
  {
    FrameRefl(h, qs);
    assert qs + [] == qs;
    assert vs[..0] == [];
  }

  /** After the last round every value is copied. */
  lemma CopyDone<T>(h: Heap<T>, qs: seq<Addr>, vs: seq<T>, h': Heap<T>, q': Ends, added: seq<Addr>)
    requires Copied(h, qs, vs, h', q', added, |vs|)
    ensures Chain(h', q'.head, q'.tail, qs + added)
    ensures Values(h', qs + added) == Values(h, qs) + vs
    ensures |added| == |vs| && Above(added, h.free) && Frame(h, h', qs)
  {
    assert vs[..|vs|] == vs;
  }

  /** The node the copy loop reads is still the source's `k`-th node. */
  lemma CopySource<T>(h: Heap<T>, h': Heap<T>, qs: seq<Addr>, src: Ends, ss: seq<Addr>, k: nat)
    requires Frame(h, h', qs) && Chain(h, src.head, src.tail, ss) && Disjoint(ss, qs)
    requires k < |ss|
    ensures ss[k] in h'.cells && h'.cells[ss[k]] == h.cells[ss[k]]
    ensures h.cells[ss[k]].data == Values(h, ss)[k]
    ensures h.cells[ss[k]].next == (if k + 1 < |ss| then At(ss[k + 1]) else Null)
  {
    assert ss[k] in ss;
  }

  /** The loop shared by `__add__` and `__iadd__`: walks `src` from its head
      and appends a copy of every value to `q` with `AddLast`, counting the
      appended nodes. The walk reads `src` while `q` grows, so the two chains
      must not share nodes: with `other is self` the walk never ends. */
  method AppendCopies<T>(h: Heap<T>, q: Ends, ghost qs: seq<Addr>, src: Ends, ghost ss: seq<Addr>)
    returns (h': Heap<T>, q': Ends, n: nat, ghost added: seq<Addr>)
    requires Chain(h, q.head, q.tail, qs) && Chain(h, src.head, src.tail, ss)
    requires Disjoint(ss, qs)
    ensures Chain(h', q'.head, q'.tail, qs + added)
    ensures Values(h', qs + added) == Values(h, qs) + Values(h, ss)
    ensures n == |added| == |ss| && Above(added, h.free)
    ensures Frame(h, h', qs)
  {
    ghost var vs := Values(h, ss);
    h', q', n, added := h, q, 0, [];
    var cur := src.head;
    CopyStart(h, q, qs, vs);
    while cur != Null
      invariant n <= |ss|
      invariant cur == (if n < |ss| then At(ss[n]) else Null)
      invariant Copied(h, qs, vs, h', q', added, n)
      decreases |ss| - n
    {
      CopySource(h, h', qs, src, ss, n);
      var next := h'.cells[cur.addr].next;
      var u := AddLast(h', q', h'.cells[cur.addr].data, qs + added);
      CopyStep(h, qs, vs, h', q', added, n, u);
      h', q', added := u.heap, u.q, added + [h'.free];
      cur, n := next, n + 1;
    }
    CopyDone(h, qs, vs, h', q', added);
  }

  /** The first loop of `__add__`: copies of `a`'s values appended to a
      fresh empty queue. */
  method CopyFresh<T>(h: Heap<T>, a: Ends, ghost ns: seq<Addr>)
    returns (h': Heap<T>, r: Ends, n: nat, ghost rs: seq<Addr>)
    requires Chain(h, a.head, a.tail, ns)
    ensures Chain(h', r.head, r.tail, rs) && Values(h', rs) == Values(h, ns)
    ensures n == |rs| && Above(rs, h.free)
    ensures Frame(h, h', [])
  {
    h', r, n, rs := AppendCopies(h, Ends(Null, Null), [], a, ns);
    assert [] + rs == rs;
    assert Values(h, []) == [];
  }

  /** `__add__`: a fresh queue holding copies of `a`'s values followed by
      `b`'s; both operands keep their nodes and contents. `n` counts the
      enqueues into the fresh queue. */
  method Add<T>(h: Heap<T>, a: Ends, b: Ends, ghost ns: seq<Addr>, ghost ms: seq<Addr>)
    returns (h': Heap<T>, r: Ends, n: nat, ghost rs: seq<Addr>)
    requires Chain(h, a.head, a.tail, ns) && Chain(h, b.head, b.tail, ms)
    ensures Chain(h', r.head, r.tail, rs)
    ensures Values(h', rs) == Values(h, ns) + Values(h, ms)
    ensures n == |rs| && Above(rs, h.free)
    ensures Chain(h', a.head, a.tail, ns) && Values(h', ns) == Values(h, ns)
    ensures Chain(h', b.head, b.tail, ms) && Values(h', ms) == Values(h, ms)
    ensures Frame(h, h', [])
  {
    var h1, r1, n1, rs1 := CopyFresh(h, a, ns);
    FrameKeepsChain(h, h1, [], b.head, b.tail, ms);
    FreshDisjoint(h, ms, rs1);
    var h2, r2, n2, rs2 := AppendCopies(h1, r1, rs1, b, ms);
    FrameTransFresh(h, h1, h2, [], rs1);
    AboveJoin(rs1, rs2, h.free, h1.free);
    FrameKeepsChain(h, h2, [], a.head, a.tail, ns);
    FrameKeepsChain(h, h2, [], b.head, b.tail, ms);
    assert |rs1 + rs2| == n1 + n2;
    h', r, n, rs := h2, r2, n1 + n2, rs1 + rs2;
  }

  /** `__iadd__`: appends copies of `other`'s values to `self`; `other` keeps
      its nodes and contents. */
  method IAdd<T>(h: Heap<T>, self: Ends, other: Ends, ghost ns: seq<Addr>, ghost ms: seq<Addr>)
    returns (h': Heap<T>, r: Ends, ghost rs: seq<Addr>)
    requires Chain(h, self.head, self.tail, ns) && Chain(h, other.head, other.tail, ms)
    requires Disjoint(ms, ns)
    ensures Chain(h', r.head, r.tail, ns + rs)
    ensures Values(h', ns + rs) == Values(h, ns) + Values(h, ms)
    ensures Above(rs, h.free)
    ensures Chain(h', other.head, other.tail, ms) && Values(h', ms) == Values(h, ms)
    ensures Frame(h, h', ns)
  {
    var n;
    h', r, n, rs := AppendCopies(h, self, ns, other, ms);
    FrameKeepsChain(h, h', ns, other.head, other.tail, ms);
  }

  /** `q += q` as written, after `k` rounds of its loop on a non-empty
      queue: the cursor starts at the head, and each round appends a copy of
      the cursor's value with `addLast` and moves the cursor on. Every round
      adds a node behind the cursor, so after `k` rounds the queue has
      `|ns| + k` nodes, its values repeat the old ones, and the cursor is
      at position `k`, never `None`: the loop does not end. */
  function SelfAddRounds<T>(h: Heap<T>, q: Ends, ghost ns: seq<Addr>, k: nat): (r: Loop<T, Ends>)
    requires Chain(h, q.head, q.tail, ns) && |ns| > 0
    ensures Chain(r.heap, r.q.head, r.q.tail, ns + Span(h.free, k))
    ensures r.heap.free == h.free + k
    ensures r.cur == At((ns + Span(h.free, k))[k])
    ensures Repeats(Values(r.heap, ns + Span(h.free, k)), Values(h, ns))
    decreases k
  {
    if k == 0 then
      assert ns + Span(h.free, 0) == ns;
      Loop(h, q, q.head)
    else
      var p := SelfAddRounds(h, q, ns, k - 1);
      assert (ns + Span(h.free, k - 1))[k - 1] in ns + Span(h.free, k - 1);
      var u := AddLast(p.heap, p.q, p.heap.cells[p.cur.addr].data, ns + Span(h.free, k - 1));
      SelfAddStep(h, ns, k, p, u);
      Loop(u.heap, u.q, u.heap.cells[p.cur.addr].next)
  }

  /** One round of `q += q`: the invariant of `SelfAddRounds` after `k - 1`
      rounds gives it after `k`. */
  lemma SelfAddStep<T>(h: Heap<T>, ns: seq<Addr>, k: nat, p: Loop<T, Ends>, u: Upd<T, Ends>)
    requires InHeap(h, ns) && |ns| > 0 && k > 0
    requires Chain(p.heap, p.q.head, p.q.tail, ns + Span(h.free, k - 1))
    requires p.heap.free == h.free + k - 1
    requires p.cur == At((ns + Span(h.free, k - 1))[k - 1]) && p.cur.addr in p.heap.cells
    requires Repeats(Values(p.heap, ns + Span(h.free, k - 1)), Values(h, ns))
    requires Chain(u.heap, u.q.head, u.q.tail, ns + Span(h.free, k - 1) + [p.heap.free])
    requires Values(u.heap, ns + Span(h.free, k - 1) + [p.heap.free])
             == Values(p.heap, ns + Span(h.free, k - 1)) + [p.heap.cells[p.cur.addr].data]
    requires u.heap.free == p.heap.free + 1
    ensures Chain(u.heap, u.q.head, u.q.tail, ns + Span(h.free, k))
    ensures u.heap.free == h.free + k
    ensures p.cur.addr in u.heap.cells && u.heap.cells[p.cur.addr].next == At((ns + Span(h.free, k))[k])
    ensures Repeats(Values(u.heap, ns + Span(h.free, k)), Values(h, ns))
  {
    var ps, ks := ns + Span(h.free, k - 1), ns + Span(h.free, k);
    assert ps + [p.heap.free] == ks;
    SelfAddLink(u.heap, ks, k);
    RepeatsStep(Values(p.heap, ps), Values(h, ns));
  }

  /** In the grown chain the copied node's successor is node `k`. */
  lemma SelfAddLink<T>(h: Heap<T>, ks: seq<Addr>, k: nat)
    requires Chain(h, First(ks), Last(ks), ks) && 0 < k < |ks|
    ensures ks[k - 1] in h.cells && h.cells[ks[k - 1]].next == At(ks[k])
  {
    NextLink(h, ks, k - 1);
  }

  /** `q += q` on a non-empty queue never ends: after any number of rounds
      the cursor is still a node of the queue, which has grown by one node
      per round. */
  lemma SelfAddNeverEnds<T>(h: Heap<T>, q: Ends, ns: seq<Addr>, k: nat)
    requires Chain(h, q.head, q.tail, ns) && |ns| > 0
    ensures SelfAddRounds(h, q, ns, k).cur != Null
    ensures |Values(SelfAddRounds(h, q, ns, k).heap, ns + Span(h.free, k))| == |ns| + k
  {
  }

  /** `self += other` with the aliased call handled: `other`'s values are
      first copied into a fresh queue, as `list(other)` would, and the
      copies are then appended to `self`. The loop walks nodes that
      `addLast` does not extend, so it ends, also when `other` is `self`;
      `other` keeps its nodes and values when it is a different queue. */
  method IAddCopyFirst<T>(h: Heap<T>, self: Ends, other: Ends, ghost ns: seq<Addr>, ghost ms: seq<Addr>)
    returns (h': Heap<T>, r: Ends, ghost rs: seq<Addr>)
    requires Chain(h, self.head, self.tail, ns) && Chain(h, other.head, other.tail, ms)
    ensures Chain(h', r.head, r.tail, ns + rs)
    ensures Values(h', ns + rs) == Values(h, ns) + Values(h, ms)
    ensures Above(rs, h.free)
    ensures Frame(h, h', ns)
    ensures Disjoint(ms, ns) ==> Chain(h', other.head, other.tail, ms) && Values(h', ms) == Values(h, ms)
  {
    var h1, c, n, cs := CopyFresh(h, other, ms);
    FrameKeepsChain(h, h1, [], self.head, self.tail, ns);
    FreshDisjoint(h, ns, cs);
    var n2;
    h', r, n2, rs := AppendCopies(h1, self, ns, c, cs);
    FrameTrans(h, h1, h', ns, ns);
    if Disjoint(ms, ns) {
      FrameKeepsChain(h, h', ns, other.head, other.tail, ms);
    }
  }

  /** The splice used by every sized singly linked `iconcat` / `__iadd__`:
      nothing happens when `other` is empty; an empty `self` adopts `other`'s
      chain; otherwise `self`'s tail is linked to `other`'s head. No loop:
      only `self`'s tail node is written. The caller resets `other`. */
  function Splice<T>(h: Heap<T>, self: Ends, other: Ends, ghost ns: seq<Addr>, ghost ms: seq<Addr>): (r: Upd<T, Ends>)
    requires Chain(h, self.head, self.tail, ns) && Chain(h, other.head, other.tail, ms)
    requires Disjoint(ns, ms)
    ensures Chain(r.heap, r.q.head, r.q.tail, ns + ms)
    ensures Values(r.heap, ns + ms) == Values(h, ns) + Values(h, ms)
    ensures |ms| == 0 ==> r.heap == h && r.q == self
    ensures |ns| == 0 ==> r.heap == h && r.q == other
    ensures Frame(h, r.heap, ns) && r.heap.free == h.free
  {
    if other.head == Null then
      assert |ms| == 0 && ns + ms == ns;
      FrameRefl(h, ns);
      Upd(h, self)
    else if self.head == Null then
      assert |ns| == 0 && ns + ms == ms;
      FrameRefl(h, ns);
      Upd(h, other)
    else
      SpliceBoth(h, ns, ms);
      Upd(SetNext(h, self.tail.addr, other.head), Ends(self.head, other.tail))
  }

  /** The heap facts behind the third case of `Splice`. */
  lemma SpliceBoth<T>(h: Heap<T>, ns: seq<Addr>, ms: seq<Addr>)
    requires Chain(h, First(ns), Last(ns), ns) && Chain(h, First(ms), Last(ms), ms)
    requires Disjoint(ns, ms) && |ns| > 0 && |ms| > 0
    ensures ns[|ns| - 1] in h.cells
    ensures Chain(SetNext(h, ns[|ns| - 1], At(ms[0])), First(ns), Last(ms), ns + ms)
    ensures Values(SetNext(h, ns[|ns| - 1], At(ms[0])), ns + ms) == Values(h, ns) + Values(h, ms)
    ensures Frame(h, SetNext(h, ns[|ns| - 1], At(ms[0])), ns)
  {
    LinkChains(h, ns, ms);
    assert ns[|ns| - 1] in ns;
  }
}
