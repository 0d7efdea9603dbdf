/** The queues kept in a Python list or deque: `ArrayQueue` of
    analyze/ArrayQueue.py, `ListQueueDisplay` of analyze/ListQueue.py,
    `ArrayQueue` of queue_performance/array_queue.py and `ArrayQueue` of
    data_structures.py. Their whole state is the sequence of items, front
    first. `LinkingList` and `HeadIndexQueue` prove that their answers
    agree with these. */
module ListQueues {
  import opened Outcome

  datatype Queue<T> = Queue(items: seq<T>)

  /** Result of an operation that returns a value and the updated queue. */
  datatype Step<T, V> = Step(q: Queue<T>, out: V)

  /** Result of an in-place concatenation: the receiver and the donor. */
  datatype Pair<T> = Pair(q: Queue<T>, other: Queue<T>)

  /** `__init__`: no items. */
  function Empty<T>(): (r: Queue<T>)
    ensures r.items == [] && Len(r) == 0
  {
    Queue([])
  }

  /** `enqueue` / `append` / `addLast` / `add_last`: the value becomes the
      last item; splitting it off again gives back the old queue. */
  function AddLast<T>(q: Queue<T>, x: T): (r: Queue<T>)
    ensures |r.items| == |q.items| + 1
    ensures r.items[|r.items| - 1] == x && r.items[..|r.items| - 1] == q.items
  {
    Queue(q.items + [x])
  }

  /** `insert(0, value)` of `addFirst` / `add_first`: the value becomes the
      first item, in front of the old queue. */
  function AddFirst<T>(q: Queue<T>, x: T): (r: Queue<T>)
    ensures |r.items| == |q.items| + 1
    ensures r.items[0] == x && r.items[1..] == q.items
  {
    Queue([x] + q.items)
  }

  /** `is_empty`: the length is zero (`len(...) == 0` or `not items`),
      which makes the queue the same as a newly created one. */
  predicate IsEmpty<T>(q: Queue<T>)
    ensures IsEmpty(q) <==> q == Queue([])
  {
    |q.items| == 0
  }

  /** `__len__`: the number of items. */
  function Len<T>(q: Queue<T>): (r: nat)
    ensures r == |q.items|
    ensures r == 0 <==> IsEmpty(q)
  {
    |q.items|
  }

  /** `dequeue`: `IndexError` and no change on an empty queue; otherwise
      `pop(0)` / `popleft()`: the first item is returned and the rest stays,
      in order. */
  function Dequeue<T>(q: Queue<T>): (r: Step<T, Result<T>>)
    ensures IsEmpty(q) <==> r.out == Err(IndexError)
    ensures IsEmpty(q) ==> r.q == q
    ensures !IsEmpty(q) ==> r.out.Ok? && [r.out.value] + r.q.items == q.items
  {
    if IsEmpty(q) then Step(q, Err(IndexError))
    else Step(Queue(q.items[1..]), Ok(q.items[0]))
  }

  /** `peek`: `IndexError` on an empty queue, otherwise the first item; the
      queue is not changed. */
  function Peek<T>(q: Queue<T>): (r: Result<T>)
    ensures IsEmpty(q) <==> r == Err(IndexError)
    ensures !IsEmpty(q) ==> r == Dequeue(q).out
  {
    if IsEmpty(q) then Err(IndexError) else Ok(q.items[0])
  }

  /** `removelast` of analyze/ArrayQueue.py: `IndexError` and no change on
      an empty queue; otherwise `pop()`: the last item is returned and the
      prefix stays. */
  function RemoveLast<T>(q: Queue<T>): (r: Step<T, Result<T>>)
    ensures IsEmpty(q) <==> r.out == Err(IndexError)
    ensures IsEmpty(q) ==> r.q == q
    ensures !IsEmpty(q) ==> r.out.Ok? && r.q.items + [r.out.value] == q.items
  {
    if IsEmpty(q) then Step(q, Err(IndexError))
    else Step(Queue(q.items[..|q.items| - 1]), Ok(q.items[|q.items| - 1]))
  }

  /** `removeFirst` / `remove_first`: Python `None` on an empty queue,
      otherwise the first item, removed. */
  function RemoveFirstOrNone<T>(q: Queue<T>): (r: Step<T, Option<T>>)
    ensures IsEmpty(q) <==> r.out == None
    ensures IsEmpty(q) ==> r.q == q
    ensures !IsEmpty(q) ==> r.out.Some? && [r.out.value] + r.q.items == q.items
  {
    if IsEmpty(q) then Step(q, None)
    else Step(Queue(q.items[1..]), Some(q.items[0]))
  }

  /** `removeLast` of queue_performance/array_queue.py: Python `None` on an
      empty queue, otherwise the last item, removed. */
  function RemoveLastOrNone<T>(q: Queue<T>): (r: Step<T, Option<T>>)
    ensures IsEmpty(q) <==> r.out == None
    ensures IsEmpty(q) ==> r.q == q
    ensures !IsEmpty(q) ==> r.out.Some? && r.q.items + [r.out.value] == q.items
  {
    if IsEmpty(q) then Step(q, None)
    else Step(Queue(q.items[..|q.items| - 1]), Some(q.items[|q.items| - 1]))
  }

  /** `__add__` and the extending `__iadd__`: the items of `a` followed by
      those of `b`; the second operand is left as it was. Whether the result
      is a new object or `a` itself is not visible in a value model. */
  function Concat<T>(a: Queue<T>, b: Queue<T>): (r: Queue<T>)
    ensures |r.items| == |a.items| + |b.items|
    ensures r.items[..|a.items|] == a.items && r.items[|a.items|..] == b.items
  {
    Queue(a.items + b.items)
  }

  /** Names of list objects. A program's queues are a map from names to
      lists, so that two names of one object, as `self` and `other` in
      `q.iconcat(q)`, see each other's changes. */
  type QId = nat

  /** `iconcat` of analyze/ArrayQueue.py as written, on the lists of all
      queues: `self._data.extend(other._data)`, which appends a copy of
      `other`'s list even when it is `self`'s own, and then
      `other._data.clear()`. On two different queues the receiver holds both
      lists and the donor is empty; on one queue the `clear` undoes the
      `extend` and the queue ends empty. No other queue changes. */
  function IConcatIn<T>(st: map<QId, seq<T>>, s: QId, o: QId): (r: map<QId, seq<T>>)
    requires s in st && o in st
    ensures r.Keys == st.Keys
    ensures forall k :: k in st && k != s && k != o ==> r[k] == st[k]
    ensures s != o ==> r[s] == st[s] + st[o] && r[o] == []
    ensures s == o ==> r[s] == []
  {
    var st1 := st[s := st[s] + st[o]];
    st1[o := []]
  }

  /** `iconcat` on two different queues, as a pair: the receiver holds both
      queues' items and the donor ends empty. */
  function IConcat<T>(self: Queue<T>, other: Queue<T>): (r: Pair<T>)
    ensures r.q == Concat(self, other) && IsEmpty(r.other)
  {
    var st := IConcatIn(map[0 := self.items, 1 := other.items], 0, 1);
    Pair(Queue(st[0]), Queue(st[1]))
  }

  /** `q.iconcat(q)`: the same statements on one queue, which ends empty. */
  function IConcatOntoItself<T>(q: Queue<T>): (r: Queue<T>)
    ensures IsEmpty(r)
  {
    Queue(IConcatIn(map[0 := q.items], 0, 0)[0])
  }

  /** `self.iconcat(other)` with the aliased call handled: the receiver gets
      `other`'s items appended in every case, and `other` is cleared only
      when it is a different queue. No other queue changes. */
  function ConcatInto<T>(st: map<QId, seq<T>>, s: QId, o: QId): (r: map<QId, seq<T>>)
    requires s in st && o in st
    ensures r.Keys == st.Keys
    ensures forall k :: k in st && k != s && k != o ==> r[k] == st[k]
    ensures r[s] == st[s] + st[o]
    ensures s != o ==> r[o] == []
  {
    if s == o then st[s := st[s] + st[s]] else IConcatIn(st, s, o)
  }

  /** The `iconcat` as written does what was meant exactly when the two
      names are different queues or the queue is empty: `q.iconcat(q)` on a
      non-empty queue loses its items where they should have doubled. */
  lemma OntoItselfLosesItems<T>(st: map<QId, seq<T>>, s: QId, o: QId)
    requires s in st && o in st
    ensures IConcatIn(st, s, o) == ConcatInto(st, s, o) <==> s != o || st[s] == []
  {
    if s == o && st[s] == [] {
      assert IConcatIn(st, s, o) == st;
      assert ConcatInto(st, s, o) == st;
    } else if s == o {
      assert IConcatIn(st, s, o)[s] != ConcatInto(st, s, o)[s];
    }
  }

  /** The operations a FIFO client issues, for comparing queue models. */
  datatype Op<T> = Push(x: T) | Pop | Front

  /** The answers a queue gives to a run of operations, starting from `q`:
      a `Pop` or `Front` answers with `dequeue` or `peek`, a `Push` with
      nothing. */
  function Run<T>(q: Queue<T>, ops: seq<Op<T>>): seq<Result<T>>
    decreases |ops|
  {
    if ops == [] then []
    else match ops[0]
      case Push(x) => Run(AddLast(q, x), ops[1..])
      case Pop => var s := Dequeue(q); [s.out] + Run(s.q, ops[1..])
      case Front => [Peek(q)] + Run(q, ops[1..])
  }

  /** Enqueueing the values `xs` one after another. */
  function AddAll<T>(q: Queue<T>, xs: seq<T>): Queue<T>
    decreases |xs|
  {
    if xs == [] then q else AddAll(AddLast(q, xs[0]), xs[1..])
  }

  /** Dequeueing until the queue is empty, collecting the values. */
  function Drain<T>(q: Queue<T>): seq<T>
    decreases |q.items|
  {
    if IsEmpty(q) then []
    else
      var s := Dequeue(q);
      [s.out.value] + Drain(s.q)
  }

  /** Enqueueing appends the values after the items already present. */
  lemma {:induction false} AddAllAppends<T>(q: Queue<T>, xs: seq<T>)
    ensures AddAll(q, xs).items == q.items + xs
    decreases |xs|
  {
    if xs != [] {
      AddAllAppends(AddLast(q, xs[0]), xs[1..]);
      assert q.items + [xs[0]] + xs[1..] == q.items + xs;
    }
  }

  /** Dequeueing everything yields the items front first. */
  lemma {:induction false} DrainFrontFirst<T>(q: Queue<T>)
    ensures Drain(q) == q.items
    decreases |q.items|
  {
    if !IsEmpty(q) {
      DrainFrontFirst(Dequeue(q).q);
    }
  }

  /** Enqueueing `xs` adds `|xs|` to the length. */
  lemma LenAddAll<T>(q: Queue<T>, xs: seq<T>)
    ensures Len(AddAll(q, xs)) == Len(q) + |xs|
  {
    AddAllAppends(q, xs);
  }

  /** First in, first out: the values enqueued into a queue come out, once
      the earlier items have, in the order they went in. */
  lemma Fifo<T>(q: Queue<T>, xs: seq<T>)
    ensures Drain(AddAll(q, xs)) == q.items + xs
  {
    AddAllAppends(q, xs);
    DrainFrontFirst(AddAll(q, xs));
  }
}
