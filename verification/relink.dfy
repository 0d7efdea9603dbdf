/** Inserting a node between two neighbours and unlinking a node from its
    neighbours in a doubly linked chain: the heap writes of `_addbetween`
    and `_remove` in analyze/DLL.py and main/DLL.py (and of the auto-linking
    `ListNode` constructor of main/DLL.py). The two files differ only in how
    they update the list header, so the heap part is defined once here. */
module Relink {
  import opened Arena

  /** `ns` with `a` inserted at position `i`. */
  function Insert(ns: seq<Addr>, i: nat, a: Addr): (r: seq<Addr>)
    requires i <= |ns|
    ensures |r| == |ns| + 1
    ensures forall k :: 0 <= k < |r| ==> r[k] == if k < i then ns[k] else if k == i then a else ns[k - 1]
  {
    ns[..i] + [a] + ns[i..]
  }

  /** `ns` with position `i` removed. */
  function Delete(ns: seq<Addr>, i: nat): (r: seq<Addr>)
    requires i < |ns|
    ensures |r| == |ns| - 1
    ensures forall k :: 0 <= k < |r| ==> r[k] == if k < i then ns[k] else ns[k + 1]
  {
    ns[..i] + ns[i + 1..]
  }

  /** Inserting at either end and deleting either end, as concatenations. */
  lemma InsertEnds(ns: seq<Addr>, a: Addr)
    ensures Insert(ns, 0, a) == [a] + ns && Insert(ns, |ns|, a) == ns + [a]
    ensures First([a] + ns) == At(a) && Last(ns + [a]) == At(a)
    ensures Last([a] + ns) == (if ns == [] then At(a) else Last(ns))
    ensures First(ns + [a]) == (if ns == [] then At(a) else First(ns))
    ensures Before(ns, 0) == Null && After(ns, 0) == First(ns)
    ensures Before(ns, |ns|) == Last(ns) && After(ns, |ns|) == Null
  {
    assert ns[..0] == [] && ns[0..] == ns && ns[..|ns|] == ns && ns[|ns|..] == [];
  }

  lemma DeleteEnds(ns: seq<Addr>)
    requires |ns| > 0
    ensures Delete(ns, 0) == ns[1..] && Delete(ns, |ns| - 1) == ns[..|ns| - 1]
  {
    assert ns[..0] == [] && ns[|ns|..] == [];
  }

  /** The ends of a chain after an insertion or a deletion at position `i`. */
  lemma InsertEndsAt(ns: seq<Addr>, i: nat, a: Addr)
    requires i <= |ns|
    ensures First(Insert(ns, i, a)) == if i == 0 then At(a) else First(ns)
    ensures Last(Insert(ns, i, a)) == if i == |ns| then At(a) else Last(ns)
  {
  }

  lemma DeleteEndsAt(ns: seq<Addr>, i: nat)
    requires i < |ns|
    ensures First(Delete(ns, i)) == if i == 0 then After(ns, 1) else First(ns)
    ensures Last(Delete(ns, i)) == if i == |ns| - 1 then Before(ns, i) else Last(ns)
  {
  }

  /** In a list of distinct nodes, comparing a position's neighbours or the
      node itself with the list's ends tells whether the position is at the
      front or at the back. */
  lemma EndTests(ns: seq<Addr>, i: nat)
    requires Distinct(ns) && i <= |ns|
    ensures (After(ns, i) == First(ns)) == (i == 0)
    ensures (Before(ns, i) == Last(ns)) == (i == |ns|)
    ensures i < |ns| ==> (At(ns[i]) == First(ns)) == (i == 0)
    ensures i < |ns| ==> (At(ns[i]) == Last(ns)) == (i == |ns| - 1)
  {
    if 0 < i < |ns| {
      assert ns[0] != ns[i];
    }
    if 0 < i && i - 1 < |ns| - 1 {
      assert ns[i - 1] != ns[|ns| - 1];
    }
    if i < |ns| - 1 {
      assert ns[i] != ns[|ns| - 1];
    }
  }

  /** The same identities for the value sequences. */
  lemma SliceEnds<T>(s: seq<T>, x: T)
    ensures s[..0] + [x] + s[0..] == [x] + s && s[..|s|] + [x] + s[|s|..] == s + [x]
    ensures |s| > 0 ==> s[..0] + s[1..] == s[1..] && s[..|s| - 1] + s[|s|..] == s[..|s| - 1]
  {
    assert s[..0] == [] && s[0..] == s && s[..|s|] == s && s[|s|..] == [];
  }

  /** The neighbours of position `i`: the node before it and the node at
      it, `Null` past either end. */
  function Before(ns: seq<Addr>, i: nat): Ptr
    requires i <= |ns|
  {
    if i == 0 then Null else At(ns[i - 1])
  }

  function After(ns: seq<Addr>, i: nat): Ptr
    requires i <= |ns|
  {
    if i == |ns| then Null else At(ns[i])
  }

  /** `ListNode(item, before, after)` together with the neighbour updates:
      a new node whose `prev` is `before` and `next` is `after`, then
      `before.next` and `after.prev` pointing to it when those exist. */
  function LinkIn<T>(h: Heap<T>, x: T, before: Ptr, after: Ptr): (r: Heap<T>)
    requires Wf(h)
    requires before != Null ==> before.addr in h.cells
    requires after != Null ==> after.addr in h.cells
    ensures Wf(r) && r.free == h.free + 1 && h.free !in h.cells
    ensures r.cells.Keys == h.cells.Keys + {h.free}
    ensures r.cells[h.free] == Node(x, before, after)
    ensures forall b :: b in h.cells ==> r.cells[b] == h.cells[b].(
      next := if At(b) == before then At(h.free) else h.cells[b].next,
      prev := if At(b) == after then At(h.free) else h.cells[b].prev)
  {
    var h1 := Alloc(h, Node(x, before, after));
    var h2 := if before == Null then h1 else SetNext(h1, before.addr, At(h.free));
    if after == Null then h2 else SetPrev(h2, after.addr, At(h.free))
  }

  /** `_remove`'s neighbour updates: `before.next` skips to `after` and
      `after.prev` back to `before`, where `before` and `after` are the
      node's own links. The node itself is left as it was. */
  function Unlink<T>(h: Heap<T>, a: Addr): (r: Heap<T>)
    requires a in h.cells
    requires h.cells[a].prev != Null ==> h.cells[a].prev.addr in h.cells
    requires h.cells[a].next != Null ==> h.cells[a].next.addr in h.cells
    ensures r.free == h.free && r.cells.Keys == h.cells.Keys
    ensures forall b :: b in h.cells ==> r.cells[b] == h.cells[b].(
      next := if At(b) == h.cells[a].prev then h.cells[a].next else h.cells[b].next,
      prev := if At(b) == h.cells[a].next then h.cells[a].prev else h.cells[b].prev)
  {
    var before, after := h.cells[a].prev, h.cells[a].next;
    var h1 := if before == Null then h else SetNext(h, before.addr, after);
    if after == Null then h1 else SetPrev(h1, after.addr, before)
  }

  /** The neighbours of position `i` exist in the heap. */
  lemma NeighboursIn<T>(h: Heap<T>, ns: seq<Addr>, i: nat)
    requires InHeap(h, ns) && i <= |ns|
    ensures Before(ns, i) != Null ==> Before(ns, i).addr in h.cells
    ensures After(ns, i) != Null ==> After(ns, i).addr in h.cells
  {
    if i > 0 { assert ns[i - 1] in ns; }
    if i < |ns| { assert ns[i] in ns; }
  }

  lemma NeighboursInChain(ns: seq<Addr>, i: nat)
    requires i <= |ns|
    ensures Before(ns, i) != Null ==> Before(ns, i).addr in ns
    ensures After(ns, i) != Null ==> After(ns, i).addr in ns
  {
  }

  /** After linking a fresh node in at position `i`, the `k`-th node of the
      extended chain carries the links its position demands. */
  lemma LinkInAt<T>(h: Heap<T>, ns: seq<Addr>, i: nat, x: T, k: nat)
    requires DChain(h, First(ns), Last(ns), ns) && i <= |ns| && k <= |ns|
    requires Before(ns, i) != Null ==> Before(ns, i).addr in h.cells
    requires After(ns, i) != Null ==> After(ns, i).addr in h.cells
    ensures Insert(ns, i, h.free)[k] in LinkIn(h, x, Before(ns, i), After(ns, i)).cells
    ensures LinkIn(h, x, Before(ns, i), After(ns, i)).cells[Insert(ns, i, h.free)[k]].next == NextOf(Insert(ns, i, h.free), k)
    ensures LinkIn(h, x, Before(ns, i), After(ns, i)).cells[Insert(ns, i, h.free)[k]].prev == PrevOf(Insert(ns, i, h.free), k)
  {
    var js := Insert(ns, i, h.free);
    if k != i {
      var o := if k < i then k else k - 1;
      assert js[k] == ns[o] && ns[o] in ns;
      NextLink(h, ns, o);
      PrevLink(h, ns, o);
      if i > 0 && o != i - 1 { assert ns[o] != ns[i - 1]; }
      if i < |ns| && o != i { assert ns[o] != ns[i]; }
    }
  }

  lemma InsertDistinct(ns: seq<Addr>, i: nat, a: Addr)
    requires Distinct(ns) && i <= |ns| && a !in ns
    ensures Distinct(Insert(ns, i, a))
  {
    var js := Insert(ns, i, a);
    forall p, q | 0 <= p < q < |js| ensures js[p] != js[q] {
      if p == i { assert js[q] == ns[q - 1]; }
      else if q == i { assert js[p] == ns[p]; }
    }
  }

  /** Linking a fresh node in at position `i` of a doubly linked chain
      gives the chain with the node inserted there; every other node keeps
      its data. */
  lemma LinkInChain<T>(h: Heap<T>, ns: seq<Addr>, i: nat, x: T)
    requires DChain(h, First(ns), Last(ns), ns) && i <= |ns|
    ensures Before(ns, i) != Null ==> Before(ns, i).addr in h.cells
    ensures After(ns, i) != Null ==> After(ns, i).addr in h.cells
    ensures DChain(LinkIn(h, x, Before(ns, i), After(ns, i)), First(Insert(ns, i, h.free)), Last(Insert(ns, i, h.free)), Insert(ns, i, h.free))
    ensures Values(LinkIn(h, x, Before(ns, i), After(ns, i)), Insert(ns, i, h.free)) == Values(h, ns)[..i] + [x] + Values(h, ns)[i..]
    ensures Frame(h, LinkIn(h, x, Before(ns, i), After(ns, i)), ns)
  {
    NeighboursIn(h, ns, i);
    NeighboursInChain(ns, i);
    LinkInLinks(h, ns, i, x);
    LinkInFrame(h, ns, i, x);
    ValuesInsert(h, LinkIn(h, x, Before(ns, i), After(ns, i)), ns, i, x);
  }

  lemma LinkInLinks<T>(h: Heap<T>, ns: seq<Addr>, i: nat, x: T)
    requires DChain(h, First(ns), Last(ns), ns) && i <= |ns|
    requires Before(ns, i) != Null ==> Before(ns, i).addr in h.cells
    requires After(ns, i) != Null ==> After(ns, i).addr in h.cells
    ensures DChain(LinkIn(h, x, Before(ns, i), After(ns, i)), First(Insert(ns, i, h.free)), Last(Insert(ns, i, h.free)), Insert(ns, i, h.free))
  {
    var h' := LinkIn(h, x, Before(ns, i), After(ns, i));
    var js := Insert(ns, i, h.free);
    assert h.free !in ns;
    InsertDistinct(ns, i, h.free);
    forall k | 0 <= k < |js|
      ensures js[k] in h'.cells && h'.cells[js[k]].next == NextOf(js, k) && h'.cells[js[k]].prev == PrevOf(js, k)
    {
      LinkInAt(h, ns, i, x, k);
    }
    LinksDChain(h', js);
  }

  lemma LinkInFrame<T>(h: Heap<T>, ns: seq<Addr>, i: nat, x: T)
    requires Wf(h) && i <= |ns|
    requires Before(ns, i) != Null ==> Before(ns, i).addr in ns && Before(ns, i).addr in h.cells
    requires After(ns, i) != Null ==> After(ns, i).addr in ns && After(ns, i).addr in h.cells
    ensures Frame(h, LinkIn(h, x, Before(ns, i), After(ns, i)), ns)
    ensures forall b :: b in h.cells ==> LinkIn(h, x, Before(ns, i), After(ns, i)).cells[b].data == h.cells[b].data
  {
    var h' := LinkIn(h, x, Before(ns, i), After(ns, i));
    forall b | b in h.cells ensures h'.cells[b].data == h.cells[b].data && (b !in ns ==> h'.cells[b] == h.cells[b]) {
    }
  }

  /** Inserting a node holding `x` at position `i` inserts `x` into the
      values, provided every other node keeps its data. */
  lemma ValuesInsert<T>(h: Heap<T>, h': Heap<T>, ns: seq<Addr>, i: nat, x: T)
    requires InHeap(h, ns) && i <= |ns| && h.free in h'.cells && h'.cells[h.free].data == x
    requires forall b :: b in h.cells ==> b in h'.cells && h'.cells[b].data == h.cells[b].data
    ensures InHeap(h', Insert(ns, i, h.free))
    ensures Values(h', Insert(ns, i, h.free)) == Values(h, ns)[..i] + [x] + Values(h, ns)[i..]
  {
    var js := Insert(ns, i, h.free);
    assert forall k :: 0 <= k < |ns| ==> ns[k] in ns;
    var vs := Values(h, ns)[..i] + [x] + Values(h, ns)[i..];
    forall k | 0 <= k < |js| ensures js[k] in h'.cells && h'.cells[js[k]].data == vs[k] {
    }
  }

  /** After unlinking position `i`, the `k`-th node of the shortened chain
      carries the links its position demands. */
  lemma UnlinkAt<T>(h: Heap<T>, ns: seq<Addr>, i: nat, k: nat)
    requires DChain(h, First(ns), Last(ns), ns) && i < |ns| && k < |ns| - 1
    requires h.cells[ns[i]].prev != Null ==> h.cells[ns[i]].prev.addr in h.cells
    requires h.cells[ns[i]].next != Null ==> h.cells[ns[i]].next.addr in h.cells
    ensures Delete(ns, i)[k] in Unlink(h, ns[i]).cells
    ensures Unlink(h, ns[i]).cells[Delete(ns, i)[k]].next == NextOf(Delete(ns, i), k)
    ensures Unlink(h, ns[i]).cells[Delete(ns, i)[k]].prev == PrevOf(Delete(ns, i), k)
  {
    var o := if k < i then k else k + 1;
    assert Delete(ns, i)[k] == ns[o] && ns[o] in ns;
    NextLink(h, ns, o);
    PrevLink(h, ns, o);
    NextLink(h, ns, i);
    PrevLink(h, ns, i);
    if i > 0 && o != i - 1 { assert ns[o] != ns[i - 1]; }
    if i + 1 < |ns| && o != i + 1 { assert ns[o] != ns[i + 1]; }
  }

  /** Unlinking position `i` of a doubly linked chain gives the chain
      without that node; the node's own links are its old neighbours. */
  lemma UnlinkChain<T>(h: Heap<T>, ns: seq<Addr>, i: nat)
    requires DChain(h, First(ns), Last(ns), ns) && i < |ns|
    ensures ns[i] in h.cells
    ensures h.cells[ns[i]].prev == Before(ns, i) && h.cells[ns[i]].next == After(ns, i + 1)
    ensures Before(ns, i) != Null ==> Before(ns, i).addr in h.cells
    ensures After(ns, i + 1) != Null ==> After(ns, i + 1).addr in h.cells
    ensures DChain(Unlink(h, ns[i]), First(Delete(ns, i)), Last(Delete(ns, i)), Delete(ns, i))
    ensures Values(Unlink(h, ns[i]), Delete(ns, i)) == Values(h, ns)[..i] + Values(h, ns)[i + 1..]
    ensures Frame(h, Unlink(h, ns[i]), ns)
  {
    assert ns[i] in ns;
    NeighboursIn(h, ns, i);
    NeighboursIn(h, ns, i + 1);
    NextLink(h, ns, i);
    PrevLink(h, ns, i);
    UnlinkLinks(h, ns, i);
    UnlinkFrame(h, ns, i);
    ValuesDelete(h, Unlink(h, ns[i]), ns, i);
  }

  lemma UnlinkLinks<T>(h: Heap<T>, ns: seq<Addr>, i: nat)
    requires DChain(h, First(ns), Last(ns), ns) && i < |ns|
    requires h.cells[ns[i]].prev != Null ==> h.cells[ns[i]].prev.addr in h.cells
    requires h.cells[ns[i]].next != Null ==> h.cells[ns[i]].next.addr in h.cells
    ensures DChain(Unlink(h, ns[i]), First(Delete(ns, i)), Last(Delete(ns, i)), Delete(ns, i))
  {
    var h' := Unlink(h, ns[i]);
    var js := Delete(ns, i);
    forall k | 0 <= k < |js|
      ensures js[k] in h'.cells && h'.cells[js[k]].next == NextOf(js, k) && h'.cells[js[k]].prev == PrevOf(js, k)
    {
      UnlinkAt(h, ns, i, k);
    }
    assert Wf(h') by {
      forall b | b in h'.cells ensures b < h'.free { assert b in h.cells; }
    }
    LinksDChain(h', js);
  }

  lemma UnlinkFrame<T>(h: Heap<T>, ns: seq<Addr>, i: nat)
    requires Wf(h) && i < |ns| && ns[i] in h.cells
    requires h.cells[ns[i]].prev != Null ==> h.cells[ns[i]].prev.addr in ns && h.cells[ns[i]].prev.addr in h.cells
    requires h.cells[ns[i]].next != Null ==> h.cells[ns[i]].next.addr in ns && h.cells[ns[i]].next.addr in h.cells
    ensures Frame(h, Unlink(h, ns[i]), ns)
    ensures forall b :: b in h.cells ==> Unlink(h, ns[i]).cells[b].data == h.cells[b].data
  {
    var h' := Unlink(h, ns[i]);
    forall b | b in h.cells ensures h'.cells[b].data == h.cells[b].data && (b !in ns ==> h'.cells[b] == h.cells[b]) {
    }
  }

  /** Deleting position `i` deletes the `i`-th value, provided every node
      keeps its data. */
  lemma ValuesDelete<T>(h: Heap<T>, h': Heap<T>, ns: seq<Addr>, i: nat)
    requires InHeap(h, ns) && i < |ns|
    requires forall b :: b in h.cells ==> b in h'.cells && h'.cells[b].data == h.cells[b].data
    ensures InHeap(h', Delete(ns, i))
    ensures Values(h', Delete(ns, i)) == Values(h, ns)[..i] + Values(h, ns)[i + 1..]
  {
    var js := Delete(ns, i);
    assert forall k :: 0 <= k < |ns| ==> ns[k] in ns;
    var vs := Values(h, ns)[..i] + Values(h, ns)[i + 1..];
    forall k | 0 <= k < |js| ensures js[k] in h'.cells && h'.cells[js[k]].data == vs[k] {
    }
  }
}
