/** The node heap shared by every linked queue in the repository.

    Python nodes are objects compared by identity; here a node is an entry of
    a finite map from addresses to `Node` records, and a pointer is either
    `Null` (Python `None`) or the address of a node. Allocation hands out the
    next unused address, so a node created by an operation is never one that
    already exists. Singly linked variants simply never read or write `prev`.

    A queue's contents are described by a ghost sequence of node addresses,
    `ns`, listed from head to tail. `Chain` says the header and the `next`
    links agree with `ns`; `DChain` adds the `prev` back-links. `Values`
    reads the data stored in those nodes, which is what the queue means. */
module Arena {

  type Addr = nat

  datatype Ptr = Null | At(addr: Addr)

  datatype Node<T> = Node(data: T, prev: Ptr, next: Ptr)

  datatype Heap<T> = Heap(cells: map<Addr, Node<T>>, free: Addr)

  /** Header of the variants that keep only `head` and `tail`. */
  datatype Ends = Ends(head: Ptr, tail: Ptr)

  /** Header of the variants that also keep an element count
      (`_size` or `_length` in the source). */
  datatype Header = Header(head: Ptr, tail: Ptr, size: int)

  /** Result of an operation that only changes the heap and one header. */
  datatype Upd<T, Q> = Upd(heap: Heap<T>, q: Q)

  /** Result of an operation that also returns a value. */
  datatype Ret<T, Q, V> = Ret(heap: Heap<T>, q: Q, out: V)

  /** Result of an operation on two headers over one heap (concatenation). */
  datatype Two<T, Q> = Two(heap: Heap<T>, q: Q, other: Q)

  /** State of a loop that walks a list with a cursor while it changes the
      heap and a header. */
  datatype Loop<T, Q> = Loop(heap: Heap<T>, q: Q, cur: Ptr)

  /** Every allocated address lies below the allocation cursor. */
  ghost predicate Wf<T>(h: Heap<T>) {
    forall a :: a in h.cells ==> a < h.free
  }

  function EmptyHeap<T>(): (h: Heap<T>)
    ensures Wf(h) && h.cells == map[]
  {
    Heap(map[], 0)
  }

  /** Creates a node at the next unused address, which is `h.free`. */
  function Alloc<T>(h: Heap<T>, n: Node<T>): (r: Heap<T>)
    requires Wf(h)
    ensures Wf(r) && h.free !in h.cells && r.free == h.free + 1
    ensures r.cells == h.cells[h.free := n]
  {
    Heap(h.cells[h.free := n], h.free + 1)
  }

  /** `node.next = p` for the node at `a`. */
  function SetNext<T>(h: Heap<T>, a: Addr, p: Ptr): (r: Heap<T>)
    requires a in h.cells
    ensures r.free == h.free && r.cells == h.cells[a := h.cells[a].(next := p)]
  {
    Heap(h.cells[a := h.cells[a].(next := p)], h.free)
  }

  /** `node.prev = p` for the node at `a`. */
  function SetPrev<T>(h: Heap<T>, a: Addr, p: Ptr): (r: Heap<T>)
    requires a in h.cells
    ensures r.free == h.free && r.cells == h.cells[a := h.cells[a].(prev := p)]
  {
    Heap(h.cells[a := h.cells[a].(prev := p)], h.free)
  }

  function First(ns: seq<Addr>): Ptr {
    if |ns| == 0 then Null else At(ns[0])
  }

  function Last(ns: seq<Addr>): Ptr {
    if |ns| == 0 then Null else At(ns[|ns| - 1])
  }

  /** The `k` addresses that `k` allocations hand out from cursor `a`. */
  function Span(a: Addr, k: nat): (r: seq<Addr>)
    ensures |r| == k && forall i :: 0 <= i < k ==> r[i] == a + i
  {
    seq(k, i => a + i)
  }

  /** `vs` starts with `orig` and then repeats itself with period `|orig|`:
      every value after the first `|orig|` equals the one `|orig|` places
      before it. */
  ghost predicate Repeats<T>(vs: seq<T>, orig: seq<T>) {
    && |orig| <= |vs|
    && (forall i :: 0 <= i < |orig| ==> vs[i] == orig[i])
    && (forall i :: |orig| <= i < |vs| ==> vs[i] == vs[i - |orig|])
  }

  /** Appending the value `|orig|` places back keeps the repetition. */
  lemma RepeatsStep<T>(vs: seq<T>, orig: seq<T>)
    requires Repeats(vs, orig) && |orig| > 0
    ensures Repeats(vs + [vs[|vs| - |orig|]], orig)
  {
  }

  ghost predicate Distinct(ns: seq<Addr>) {
    forall i, j :: 0 <= i < j < |ns| ==> ns[i] != ns[j]
  }

  /** In a list of distinct addresses, equal entries sit at one index. */
  lemma DistinctIndex(ns: seq<Addr>, i: nat, j: nat)
    requires Distinct(ns) && i < |ns| && j < |ns| && ns[i] == ns[j]
    ensures i == j
  {
  }

  ghost predicate Disjoint(ns: seq<Addr>, ms: seq<Addr>) {
    forall a :: a in ns ==> a !in ms
  }

  /** Every address of `ns` was allocated at or after cursor `bound`, so none
      of them existed in a heap whose cursor was `bound`. */
  ghost predicate Above(ns: seq<Addr>, bound: Addr) {
    forall a :: a in ns ==> bound <= a
  }

  ghost predicate InHeap<T>(h: Heap<T>, ns: seq<Addr>) {
    forall a :: a in ns ==> a in h.cells
  }

  /** The singly linked shape: `head` is the first node of `ns`, `tail` the
      last, each node's `next` is its successor and the tail's `next` is
      `Null`; the nodes are distinct, so following `next` from `head` visits
      exactly `|ns|` nodes and stops. */
  ghost predicate Chain<T>(h: Heap<T>, head: Ptr, tail: Ptr, ns: seq<Addr>) {
    && Wf(h)
    && Distinct(ns)
    && InHeap(h, ns)
    && head == First(ns)
    && tail == Last(ns)
    && (forall i :: 0 <= i < |ns| - 1 ==> h.cells[ns[i]].next == At(ns[i + 1]))
    && (|ns| > 0 ==> h.cells[ns[|ns| - 1]].next == Null)
  }

  /** The doubly linked shape: a `Chain` whose `prev` links mirror the
      `next` links and whose head has a `Null` back-link. */
  ghost predicate DChain<T>(h: Heap<T>, head: Ptr, tail: Ptr, ns: seq<Addr>) {
    && Chain(h, head, tail, ns)
    && (forall i :: 0 < i < |ns| ==> h.cells[ns[i]].prev == At(ns[i - 1]))
    && (|ns| > 0 ==> h.cells[ns[0]].prev == Null)
  }

  /** The queue's contents: the data of its nodes, head first. */
  ghost function Values<T>(h: Heap<T>, ns: seq<Addr>): (vs: seq<T>)
    requires InHeap(h, ns)
    ensures |vs| == |ns|
    ensures forall i :: 0 <= i < |ns| ==> vs[i] == h.cells[ns[i]].data
  {
    seq(|ns|, i requires 0 <= i < |ns| => h.cells[ns[i]].data)
  }

  /** `h'` differs from `h` only in the nodes of `ns` and in nodes it
      allocated: nothing outside the operated-on chain changes. */
  ghost predicate Frame<T>(h: Heap<T>, h': Heap<T>, ns: seq<Addr>) {
    && Wf(h')
    && h.free <= h'.free
    && (forall a :: a in h.cells ==> a in h'.cells)
    && (forall a :: a in h.cells && a !in ns ==> h'.cells[a] == h.cells[a])
  }

  /** A chain untouched by a framed update keeps its shape and contents. */
  lemma FrameKeepsChain<T>(h: Heap<T>, h': Heap<T>, ns: seq<Addr>, head: Ptr, tail: Ptr, ms: seq<Addr>)
    requires Frame(h, h', ns) && Disjoint(ms, ns)
    requires Chain(h, head, tail, ms)
    ensures Chain(h', head, tail, ms)
    ensures Values(h', ms) == Values(h, ms)
    ensures DChain(h, head, tail, ms) ==> DChain(h', head, tail, ms)
  {
    assert forall i :: 0 <= i < |ms| ==> h'.cells[ms[i]] == h.cells[ms[i]];
  }

  lemma FrameTrans<T>(h0: Heap<T>, h1: Heap<T>, h2: Heap<T>, ns: seq<Addr>, ms: seq<Addr>)
    requires Frame(h0, h1, ns) && Frame(h1, h2, ms)
    requires forall a :: a in ms && a in h0.cells ==> a in ns
    ensures Frame(h0, h2, ns)
  {
  }

  /** A frame around `ns` followed by a frame around `ns` plus nodes
      allocated after `h0` is a frame around `ns`. */
  lemma FrameTransFresh<T>(h0: Heap<T>, h1: Heap<T>, h2: Heap<T>, ns: seq<Addr>, added: seq<Addr>)
    requires Wf(h0) && Frame(h0, h1, ns) && Frame(h1, h2, ns + added) && Above(added, h0.free)
    ensures Frame(h0, h2, ns)
  {
  }

  /** Nodes allocated after `h` share no address with a chain of `h`. */
  lemma FreshDisjoint<T>(h: Heap<T>, ms: seq<Addr>, added: seq<Addr>)
    requires Wf(h) && InHeap(h, ms) && Above(added, h.free)
    ensures Disjoint(ms, added) && Disjoint(added, ms)
  {
  }

  lemma AboveJoin(xs: seq<Addr>, ys: seq<Addr>, b: Addr, b': Addr)
    requires Above(xs, b) && Above(ys, b') && b <= b'
    ensures Above(xs + ys, b)
  {
  }

  lemma FrameRefl<T>(h: Heap<T>, ns: seq<Addr>)
    requires Wf(h)
    ensures Frame(h, h, ns)
  {
  }

  /** Linking the tail of a non-empty chain to the head of another, disjoint
      one joins them into a single chain; only the old tail node changes. */
  lemma LinkChains<T>(h: Heap<T>, ns: seq<Addr>, ms: seq<Addr>)
    requires Chain(h, First(ns), Last(ns), ns) && Chain(h, First(ms), Last(ms), ms)
    requires Disjoint(ns, ms) && |ns| > 0 && |ms| > 0
    ensures Chain(SetNext(h, ns[|ns| - 1], At(ms[0])), First(ns), Last(ms), ns + ms)
    ensures Values(SetNext(h, ns[|ns| - 1], At(ms[0])), ns + ms) == Values(h, ns) + Values(h, ms)
  {
    var h' := SetNext(h, ns[|ns| - 1], At(ms[0]));
    var js := ns + ms;
    forall i, j | 0 <= i < j < |js| ensures js[i] != js[j] {
      if j < |ns| {
      } else if i >= |ns| {
        assert js[i] == ms[i - |ns|] && js[j] == ms[j - |ns|];
      } else {
        assert js[i] in ns && js[j] == ms[j - |ns|];
      }
    }
    forall i | 0 <= i < |js| - 1 ensures h'.cells[js[i]].next == At(js[i + 1]) {
      if i < |ns| - 1 {
        assert js[i] != ns[|ns| - 1];
      } else if i >= |ns| {
        assert js[i] == ms[i - |ns|] && js[i + 1] == ms[i + 1 - |ns|];
        assert ms[i - |ns|] in ms;
      }
    }
    assert ms[|ms| - 1] in ms;
    assert Values(h', js) == Values(h, ns) + Values(h, ms) by {
      forall i | 0 <= i < |js| ensures Values(h', js)[i] == (Values(h, ns) + Values(h, ms))[i] {
        if i >= |ns| { assert js[i] == ms[i - |ns|] && ms[i - |ns|] in ms; }
      }
    }
  }

  /** The doubly linked join: additionally the head of the second chain gets
      the old tail as its back-link. */
  lemma LinkDChains<T>(h: Heap<T>, ns: seq<Addr>, ms: seq<Addr>)
    requires DChain(h, First(ns), Last(ns), ns) && DChain(h, First(ms), Last(ms), ms)
    requires Disjoint(ns, ms) && |ns| > 0 && |ms| > 0
    ensures DChain(SetPrev(SetNext(h, ns[|ns| - 1], At(ms[0])), ms[0], At(ns[|ns| - 1])), First(ns), Last(ms), ns + ms)
    ensures Values(SetPrev(SetNext(h, ns[|ns| - 1], At(ms[0])), ms[0], At(ns[|ns| - 1])), ns + ms) == Values(h, ns) + Values(h, ms)
  {
    var h1 := SetNext(h, ns[|ns| - 1], At(ms[0]));
    LinkChains(h, ns, ms);
    assert ms[0] in ms;
    var h2 := SetPrev(h1, ms[0], At(ns[|ns| - 1]));
    var js := ns + ms;
    forall i | 0 <= i < |js| ensures h2.cells[js[i]].next == h1.cells[js[i]].next && h2.cells[js[i]].data == h1.cells[js[i]].data {
    }
    forall i | 0 < i < |js| ensures h2.cells[js[i]].prev == At(js[i - 1]) {
      if i < |ns| {
        assert js[i] in ns;
      } else if i > |ns| {
        assert js[i] == ms[i - |ns|] && js[i - 1] == ms[i - 1 - |ns|];
        assert ms[i - |ns|] != ms[0];
      }
    }
    assert ns[0] in ns;
    assert Values(h2, js) == Values(h1, js);
  }

  /** The links the `k`-th node of a chain over `ns` must carry. */
  function NextOf(ns: seq<Addr>, k: nat): Ptr
    requires k < |ns|
  {
    if k + 1 < |ns| then At(ns[k + 1]) else Null
  }

  function PrevOf(ns: seq<Addr>, k: nat): Ptr
    requires k < |ns|
  {
    if k == 0 then Null else At(ns[k - 1])
  }

  /** A doubly linked chain is exactly a list of distinct allocated nodes
      each carrying the links its position demands. */
  lemma LinksDChain<T>(h: Heap<T>, ns: seq<Addr>)
    requires Wf(h) && Distinct(ns) && InHeap(h, ns)
    requires forall k :: 0 <= k < |ns| ==> h.cells[ns[k]].next == NextOf(ns, k) && h.cells[ns[k]].prev == PrevOf(ns, k)
    ensures DChain(h, First(ns), Last(ns), ns)
  {
    forall k | 0 <= k < |ns| - 1 ensures h.cells[ns[k]].next == At(ns[k + 1]) {
      assert h.cells[ns[k]].next == NextOf(ns, k);
    }
    forall k | 0 < k < |ns| ensures h.cells[ns[k]].prev == At(ns[k - 1]) {
      assert h.cells[ns[k]].prev == PrevOf(ns, k);
    }
    if |ns| > 0 {
      assert h.cells[ns[|ns| - 1]].next == NextOf(ns, |ns| - 1);
      assert h.cells[ns[0]].prev == PrevOf(ns, 0);
    }
  }

  /** The back-link of the `j`-th node of a doubly linked chain. */
  lemma PrevLink<T>(h: Heap<T>, ms: seq<Addr>, j: nat)
    requires DChain(h, First(ms), Last(ms), ms) && j < |ms|
    ensures h.cells[ms[j]].prev == if j == 0 then Null else At(ms[j - 1])
  {
  }

  /** The `next` link of the `k`-th node of a chain. */
  lemma NextLink<T>(h: Heap<T>, ms: seq<Addr>, k: nat)
    requires Chain(h, First(ms), Last(ms), ms) && k < |ms|
    ensures h.cells[ms[k]].next == if k + 1 < |ms| then At(ms[k + 1]) else Null
  {
  }

  /** Following back-links from a node two doubly linked chains share
      reaches the same head after the same number of steps. */
  lemma {:induction false} SharedBack<T>(h: Heap<T>, ns: seq<Addr>, ms: seq<Addr>, i: nat, j: nat)
    requires DChain(h, First(ns), Last(ns), ns) && DChain(h, First(ms), Last(ms), ms)
    requires i < |ns| && j < |ms| && ns[i] == ms[j]
    ensures i == j && ns[0] == ms[0]
    decreases i
  {
    PrevLink(h, ns, i);
    PrevLink(h, ms, j);
    if i > 0 {
      SharedBack(h, ns, ms, i - 1, j - 1);
    }
  }

  /** Two chains that start at the same node are the same chain. */
  lemma {:induction false} SameHeadSameChain<T>(h: Heap<T>, ns: seq<Addr>, ms: seq<Addr>, k: nat)
    requires Chain(h, First(ns), Last(ns), ns) && Chain(h, First(ms), Last(ms), ms)
    requires 0 < k <= |ns| && k <= |ms| && ns[..k] == ms[..k]
    ensures ns == ms
    decreases |ns| - k
  {
    assert ns[k - 1] == ms[k - 1];
    NextLink(h, ns, k - 1);
    NextLink(h, ms, k - 1);
    if k == |ns| {
      assert ns == ns[..k];
      assert ms == ms[..k];
    } else {
      assert ns[..k + 1] == ns[..k] + [ns[k]];
      assert ms[..k + 1] == ms[..k] + [ms[k]];
      SameHeadSameChain(h, ns, ms, k + 1);
    }
  }

  /** Following `next` links from a node two chains share reaches the same
      tail: the chains agree from that node on. */
  lemma {:induction false} SharedForward<T>(h: Heap<T>, ns: seq<Addr>, ms: seq<Addr>, i: nat, j: nat)
    requires Chain(h, First(ns), Last(ns), ns) && Chain(h, First(ms), Last(ms), ms)
    requires i < |ns| && j < |ms| && ns[i] == ms[j]
    ensures Last(ns) == Last(ms)
    decreases |ns| - i
  {
    NextLink(h, ns, i);
    NextLink(h, ms, j);
    if i + 1 < |ns| {
      SharedForward(h, ns, ms, i + 1, j + 1);
    }
  }

  /** Two singly linked chains of one heap share a node exactly when they
      are non-empty and end at the same tail: a node has one `next`, so
      chains that meet stay together to the end. */
  lemma SharedNodeSameTail<T>(h: Heap<T>, ns: seq<Addr>, ms: seq<Addr>)
    requires Chain(h, First(ns), Last(ns), ns) && Chain(h, First(ms), Last(ms), ms)
    ensures !Disjoint(ns, ms) <==> (|ns| > 0 && Last(ns) == Last(ms))
  {
    if |ns| > 0 && Last(ns) == Last(ms) {
      assert ns[|ns| - 1] in ns && ms[|ms| - 1] in ms;
    } else if !Disjoint(ns, ms) {
      var a :| a in ns && a in ms;
      var i :| 0 <= i < |ns| && ns[i] == a;
      var j :| 0 <= j < |ms| && ms[j] == a;
      SharedForward(h, ns, ms, i, j);
    }
  }

  /** Two doubly linked chains of one heap either share no node or are the
      same chain: a node has one `prev` and one `next`, so a shared node
      pins down both chains in full. */
  lemma SharedNodeSameChain<T>(h: Heap<T>, ns: seq<Addr>, ms: seq<Addr>)
    requires DChain(h, First(ns), Last(ns), ns) && DChain(h, First(ms), Last(ms), ms)
    ensures Disjoint(ns, ms) || ns == ms
  {
    if !Disjoint(ns, ms) {
      var a :| a in ns && a in ms;
      var i :| 0 <= i < |ns| && ns[i] == a;
      var j :| 0 <= j < |ms| && ms[j] == a;
      SharedBack(h, ns, ms, i, j);
      assert ns[..1] == [ns[0]] && ms[..1] == [ms[0]];
      SameHeadSameChain(h, ns, ms, 1);
    }
  }

  /** The node reached from `p` by following `next` `k` times, `Null` once a
      `Null` link or a missing node is met. */
  function Walk<T>(h: Heap<T>, p: Ptr, k: nat): Ptr
    decreases k
  {
    if k == 0 || p == Null || p.addr !in h.cells then p
    else Walk(h, h.cells[p.addr].next, k - 1)
  }

  /** Along `next` links that follow `ns`, `i` steps from its first node
      reach its `i`-th node. */
  lemma {:induction false} WalkAlong<T>(h: Heap<T>, ns: seq<Addr>, i: nat)
    requires InHeap(h, ns) && i < |ns|
    requires forall j :: 0 <= j < |ns| - 1 ==> h.cells[ns[j]].next == At(ns[j + 1])
    ensures Walk(h, At(ns[0]), i) == At(ns[i])
  {
    if i > 0 {
      WalkAlong(h, ns, i - 1);
      WalkStep(h, At(ns[0]), i - 1);
      assert ns[i - 1] in ns;
    }
  }

  /** One more step is one `next` after the walk. */
  lemma {:induction false} WalkStep<T>(h: Heap<T>, p: Ptr, k: nat)
    requires Walk(h, p, k) != Null && Walk(h, p, k).addr in h.cells
    ensures Walk(h, p, k + 1) == h.cells[Walk(h, p, k).addr].next
    decreases k
  {
    if k > 0 {
      WalkStep(h, h.cells[p.addr].next, k - 1);
    }
  }
}
