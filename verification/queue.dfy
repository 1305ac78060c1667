/** The FIFO `Queue<T>` of the render-graph utilities: a backing array that
    grows at the back on `push` and is shifted from the front on `pop`. */
module RenderGraphQueue {
  import opened Wrappers

  /** The backing store; the oldest element is `store[0]`. */
  datatype Queue<T> = Queue(store: seq<T>)

  /** What `pop` hands back: the queue after the call and the value returned
      (`None` for the source's `undefined`). */
  datatype PopResult<T> = PopResult(queue: Queue<T>, value: Option<T>)

  /** What `n` successive pops hand back: the final queue and every returned value, in order. */
  datatype DrainResult<T> = DrainResult(queue: Queue<T>, popped: seq<Option<T>>)

  /** `isEmpty`: nothing is stored, which makes `q` the fresh queue. */
  predicate IsEmpty<T>(q: Queue<T>)
    ensures IsEmpty(q) <==> q == Queue([])
  {
    |q.store| == 0
  }

  /** A freshly constructed queue. */
  function New<T>(): (q: Queue<T>)
    ensures IsEmpty(q)
  {
    Queue([])
  }

  /** `push`: append at the back, keeping everything already stored. */
  function Push<T>(q: Queue<T>, val: T): (r: Queue<T>)
    ensures |r.store| == |q.store| + 1
    ensures r.store[..|q.store|] == q.store
    ensures r.store[|q.store|] == val
    ensures !IsEmpty(r)
  {
    Queue(q.store + [val])
  }

  /** `pop`: remove and return the oldest element; on an empty queue return
      `None` and leave the queue as it is. */
  function Pop<T>(q: Queue<T>): (r: PopResult<T>)
    ensures IsEmpty(q) <==> r.value == None
    ensures IsEmpty(q) ==> r.queue == q
    ensures !IsEmpty(q) ==> r.value == Some(q.store[0]) && [q.store[0]] + r.queue.store == q.store
  {
    if |q.store| == 0 then PopResult(q, None)
    else PopResult(Queue(q.store[1..]), Some(q.store[0]))
  }

  /** Push every element of `xs`, first to last. */
  function PushAll<T>(q: Queue<T>, xs: seq<T>): (r: Queue<T>)
    ensures r.store == q.store + xs
    decreases |xs|
  {
    if |xs| == 0 then q
    else
      var r := PushAll(Push(q, xs[0]), xs[1..]);
      assert xs == [xs[0]] + xs[1..];
      r
  }

  /** Pop `n` times, collecting what each pop returns. */
  function Drain<T>(q: Queue<T>, n: nat): (r: DrainResult<T>)
    ensures |r.popped| == n
    decreases n
  {
    if n == 0 then DrainResult(q, [])
    else
      var p := Pop(q);
      var rest := Drain(p.queue, n - 1);
      DrainResult(rest.queue, [p.value] + rest.popped)
  }

  /** `isEmpty` is true exactly of the freshly constructed queue, and exactly
      when `pop` would return `None`. */
  lemma EmptyCharacterised<T>(q: Queue<T>)
    ensures IsEmpty(q) <==> q == New()
    ensures IsEmpty(q) <==> Pop(q).value == None
  {
  }

  /** Pushing onto a non-empty queue does not disturb what `pop` returns:
      popping after the push equals pushing after the pop. */
  lemma PushPopCommute<T>(q: Queue<T>, v: T)
    requires !IsEmpty(q)
    ensures Pop(Push(q, v)).value == Pop(q).value
    ensures Pop(Push(q, v)).queue == Push(Pop(q).queue, v)
  {
    assert (q.store + [v])[1..] == q.store[1..] + [v];
  }

  /** On an empty queue a pushed value is popped straight back. */
  lemma PushOntoEmptyThenPop<T>(q: Queue<T>, v: T)
    requires IsEmpty(q)
    ensures Pop(Push(q, v)) == PopResult(New(), Some(v))
  {
  }

  /** `n` pops return the `n` oldest elements in insertion order, then `None`
      for every pop past the end; the queue keeps the rest. */
  lemma {:induction false} DrainTakesOldestFirst<T>(q: Queue<T>, n: nat)
    ensures n <= |q.store| ==> Drain(q, n).queue.store == q.store[n..]
    ensures n > |q.store| ==> IsEmpty(Drain(q, n).queue)
    ensures forall i :: 0 <= i < n && i < |q.store| ==> Drain(q, n).popped[i] == Some(q.store[i])
    ensures forall i :: |q.store| <= i < n ==> Drain(q, n).popped[i] == None
    decreases n
  {
    if n > 0 {
      var p := Pop(q);
      DrainTakesOldestFirst(p.queue, n - 1);
      if |q.store| == 0 {
        assert p.queue == q;
      } else {
        assert p.queue.store == q.store[1..];
        forall i | 0 < i < n && i < |q.store|
          ensures Drain(q, n).popped[i] == Some(q.store[i])
        {
          assert Drain(q, n).popped[i] == Drain(p.queue, n - 1).popped[i - 1];
        }
        forall i | |q.store| <= i < n
          ensures Drain(q, n).popped[i] == None
        {
          assert Drain(q, n).popped[i] == Drain(p.queue, n - 1).popped[i - 1];
        }
      }
    }
  }

  /** FIFO round trip: pushing `xs` onto a fresh queue and popping `|xs|`
      times returns `xs` in order and leaves the queue empty. */
  lemma FifoRoundTrip<T>(xs: seq<T>)
    ensures forall i :: 0 <= i < |xs| ==> Drain(PushAll(New(), xs), |xs|).popped[i] == Some(xs[i])
    ensures IsEmpty(Drain(PushAll(New(), xs), |xs|).queue)
  {
    var q := PushAll(New<T>(), xs);
    assert q.store == xs;
    DrainTakesOldestFirst(q, |xs|);
  }

  /** Draining the queue: pop until `isEmpty`, collecting each value.
      Everything stored comes out, oldest first, and the queue ends empty. */
  method PopUntilEmpty<T>(q: Queue<T>) returns (out: seq<T>, rest: Queue<T>)
    ensures out == q.store
    ensures IsEmpty(rest)
  {
    out := [];
    rest := q;
    while !IsEmpty(rest)
      invariant out + rest.store == q.store
      decreases |rest.store|
    {
      var p := Pop(rest);
      out := out + [p.value.value];
      rest := p.queue;
    }
  }
}
