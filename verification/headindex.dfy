/** `ListQueueDisplay` of main/ListQueue.py: a list that only grows and an
    index of the current front. `dequeue` moves the index instead of
    removing the item, so the queue's items are the list from the index on.
    Its answers agree with those of the plain list queue of `ListQueues`. */
module HeadIndexQueue {
  import opened Outcome
  import ListQueues

  datatype Queue<T> = Queue(head: int, items: seq<T>)

  /** The index never passes the end of the list. */
  ghost predicate Valid<T>(q: Queue<T>) {
    0 <= q.head <= |q.items|
  }

  /** The queue's items, front first: the list from the index on. */
  function Contents<T>(q: Queue<T>): seq<T>
    requires Valid(q)
  {
    q.items[q.head..]
  }

  /** The plain list queue holding the same items. */
  function Abs<T>(q: Queue<T>): ListQueues.Queue<T>
    requires Valid(q)
  {
    ListQueues.Queue(Contents(q))
  }

  /** `__init__`: index 0, empty list. */
  function Empty<T>(): (r: Queue<T>)
    ensures Valid(r) && Contents(r) == []
  {
    Queue(0, [])
  }

  /** `enqueue`: appended to the list; the index stays, and the item joins
      the back of the queue. */
  function Enqueue<T>(q: Queue<T>, x: T): (r: Queue<T>)
    requires Valid(q)
    ensures Valid(r) && r.head == q.head
    ensures Contents(r) == Contents(q) + [x]
  {
    Queue(q.head, q.items + [x])
  }

  /** `peek`: `_L[_head]`, which raises `IndexError` exactly when the index
      has reached the end of the list, that is when the queue is empty. */
  function Peek<T>(q: Queue<T>): (r: Result<T>)
    requires Valid(q)
    ensures r == Err(IndexError) <==> Contents(q) == []
    ensures Contents(q) != [] ==> r == Ok(Contents(q)[0])
  {
    if q.head < |q.items| then Ok(q.items[q.head]) else Err(IndexError)
  }

  /** `dequeue`: `peek`, which raises before the index moves, then the index
      advances by one. The list itself is never changed, and the plain list
      queue holding the same items answers and ends the same way. */
  function Dequeue<T>(q: Queue<T>): (r: (Queue<T>, Result<T>))
    requires Valid(q)
    ensures Valid(r.0) && r.0.items == q.items && r.1 == Peek(q)
    ensures r.1.Err? ==> r.0 == q
    ensures r.1.Ok? ==> r.0.head == q.head + 1 && [r.1.value] + Contents(r.0) == Contents(q)
    ensures ListQueues.Dequeue(Abs(q)) == ListQueues.Step(Abs(r.0), r.1)
  {
    match Peek(q)
    case Err(e) => (q, Err(e))
    case Ok(x) => (Queue(q.head + 1, q.items), Ok(x))
  }

  /** `__len__`: the list's length less the index. */
  function Len<T>(q: Queue<T>): (r: int)
    requires Valid(q)
    ensures r == |Contents(q)| && r >= 0
  {
    |q.items| - q.head
  }

  /** `isempty`: the length is zero. */
  function IsEmpty<T>(q: Queue<T>): (r: bool)
    requires Valid(q)
    ensures r <==> Contents(q) == []
  {
    Len(q) == 0
  }

  /** The answers the head-index queue gives to a run of operations. */
  function Run<T>(q: Queue<T>, ops: seq<ListQueues.Op<T>>): seq<Result<T>>
    requires Valid(q)
    decreases |ops|
  {
    if ops == [] then []
    else match ops[0]
      case Push(x) => Run(Enqueue(q, x), ops[1..])
      case Pop => var s := Dequeue(q); [s.1] + Run(s.0, ops[1..])
      case Front => [Peek(q)] + Run(q, ops[1..])
  }

  /** Moving an index instead of removing items is not observable: on every
      run of operations the head-index queue answers as the plain list
      queue holding its items does. */
  lemma {:induction false} RunAgrees<T>(q: Queue<T>, ops: seq<ListQueues.Op<T>>)
    requires Valid(q)
    ensures Run(q, ops) == ListQueues.Run(Abs(q), ops)
    decreases |ops|
  {
    if ops != [] {
      match ops[0]
      case Push(x) =>
        RunAgrees(Enqueue(q, x), ops[1..]);
        assert Abs(Enqueue(q, x)) == ListQueues.AddLast(Abs(q), x);
      case Pop =>
        var s := Dequeue(q);
        RunAgrees(s.0, ops[1..]);
      case Front =>
        RunAgrees(q, ops[1..]);
    }
  }
}
