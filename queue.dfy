/** The queue visualizer: a bounded first-in, first-out queue of integers
    with enqueue, dequeue, peek and clear handlers, a history of the
    operations (each recording the queue as the handler found it) and
    statistics derived from the history and the current queue. */
module QueueVisualizer {
  import opened Common

  const DEFAULT_QUEUE_LIMIT: int := 8
  const MIN_QUEUE_LIMIT: int := 3
  const MAX_QUEUE_LIMIT: int := 20

  datatype OperationKind = Enqueue | Dequeue | Clear | Peek

  datatype QueueOperation = QueueOperation(operation: OperationKind, value: Option<int>, queueState: seq<int>)

  datatype QueueError = Full(limit: int) | NotANumber | EmptyOnDequeue | EmptyOnPeek

  datatype QueueStatistics = QueueStatistics(totalEnqueues: nat, totalDequeues: nat, maxSize: nat, operationCount: nat)

  function CountKind(operations: seq<QueueOperation>, kind: OperationKind): (c: nat)
    ensures c <= |operations|
  {
    if |operations| == 0 then 0
    else CountKind(operations[..|operations| - 1], kind) + (if operations[|operations| - 1].operation == kind then 1 else 0)
  }

  /** `Math.max(...operations.map(op => op.queueState.length), size)`. */
  function LongestState(operations: seq<QueueOperation>, size: nat): (m: nat)
    ensures size <= m
    ensures forall k :: 0 <= k < |operations| ==> |operations[k].queueState| <= m
    ensures m == size || exists k :: 0 <= k < |operations| && |operations[k].queueState| == m
  {
    if |operations| == 0 then size
    else Max(LongestState(operations[..|operations| - 1], size), |operations[|operations| - 1].queueState|)
  }

  lemma {:induction false} CountsWithinTotal(operations: seq<QueueOperation>)
    ensures CountKind(operations, Enqueue) + CountKind(operations, Dequeue) <= |operations|
  {
    if |operations| > 0 {
      CountsWithinTotal(operations[..|operations| - 1]);
    }
  }

  /** The effect that recomputes the statistics whenever the history or
      the queue changes (the average size, a floating-point mean, is not
      modelled). */
  function Statistics(operations: seq<QueueOperation>, queue: seq<int>): (s: QueueStatistics)
    ensures s.maxSize >= |queue|
    ensures forall k :: 0 <= k < |operations| ==> |operations[k].queueState| <= s.maxSize
    ensures s.totalEnqueues + s.totalDequeues <= s.operationCount == |operations|
  {
    CountsWithinTotal(operations);
    QueueStatistics(CountKind(operations, Enqueue), CountKind(operations, Dequeue), LongestState(operations, |queue|), |operations|)
  }

  class Queue {
    var queue: seq<int>
    var error: Option<QueueError>
    var queueLimit: int
    var operations: seq<QueueOperation>

    ghost predicate Valid()
      reads this
    {
      && MIN_QUEUE_LIMIT <= queueLimit <= MAX_QUEUE_LIMIT
      && |queue| <= MAX_QUEUE_LIMIT
    }

    constructor ()
      ensures Valid()
      ensures queue == [] && error == None && queueLimit == DEFAULT_QUEUE_LIMIT && operations == []
    {
      queue := [];
      error := None;
      queueLimit := DEFAULT_QUEUE_LIMIT;
      operations := [];
    }

    method SetQueueLimit(limit: int)
      requires Valid() && MIN_QUEUE_LIMIT <= limit <= MAX_QUEUE_LIMIT
      modifies this
      ensures Valid() && queueLimit == limit
      ensures queue == old(queue) && error == old(error) && operations == old(operations)
    {
      queueLimit := limit;
    }

    /** The statistics panel; its maximum is never below the current size. */
    function CurrentStatistics(): (s: QueueStatistics)
      reads this
      ensures s.maxSize >= |queue| && s.operationCount == |operations|
    {
      Statistics(operations, queue)
    }

    /** handleEnqueue: rejected when full, then when the input is not a
        number; otherwise the value joins at the rear. */
    method HandleEnqueue(inputValue: string)
      requires Valid()
      modifies this
      ensures Valid() && queueLimit == old(queueLimit)
      ensures |old(queue)| >= old(queueLimit) ==>
        queue == old(queue) && operations == old(operations) && error == Some(Full(old(queueLimit)))
      ensures |old(queue)| < old(queueLimit) && ParseDecimal(inputValue).None? ==>
        queue == old(queue) && operations == old(operations) && error == Some(NotANumber)
      ensures |old(queue)| < old(queueLimit) && ParseDecimal(inputValue).Some? ==>
        var value := ParseDecimal(inputValue).value;
        && queue == old(queue) + [value]
        && operations == old(operations) + [QueueOperation(Enqueue, Some(value), old(queue))]
        && error == None
    {
      error := None;
      if |queue| >= queueLimit {
        error := Some(Full(queueLimit));
        return;
      }
      var value := ParseDecimal(inputValue);
      if value.None? {
        error := Some(NotANumber);
        return;
      }
      operations := operations + [QueueOperation(Enqueue, Some(value.value), queue)];
      queue := queue + [value.value];
    }

    /** handleDequeue: rejected on an empty queue; otherwise index 0, the
        oldest element, leaves. */
    method HandleDequeue()
      requires Valid()
      modifies this
      ensures Valid() && queueLimit == old(queueLimit)
      ensures |old(queue)| == 0 ==>
        queue == old(queue) && operations == old(operations) && error == Some(EmptyOnDequeue)
      ensures |old(queue)| > 0 ==>
        && queue == old(queue)[1..]
        && operations == old(operations) + [QueueOperation(Dequeue, Some(old(queue)[0]), old(queue))]
        && error == None
    {
      error := None;
      if |queue| == 0 {
        error := Some(EmptyOnDequeue);
        return;
      }
      var dequeuedValue := queue[0];
      operations := operations + [QueueOperation(Dequeue, Some(dequeuedValue), queue)];
      queue := queue[1..];
    }

    /** handleClear: the queue is emptied and one 'clear' entry is logged;
        the earlier history is kept. */
    method HandleClear()
      requires Valid()
      modifies this
      ensures Valid() && queueLimit == old(queueLimit)
      ensures queue == [] && error == None
      ensures operations == old(operations) + [QueueOperation(Clear, None, old(queue))]
    {
      operations := operations + [QueueOperation(Clear, None, queue)];
      queue := [];
      error := None;
    }

    /** handlePeek: logs the front element; the queue is unchanged. */
    method HandlePeek()
      requires Valid()
      modifies this
      ensures Valid() && queueLimit == old(queueLimit) && queue == old(queue)
      ensures |queue| == 0 ==> operations == old(operations) && error == Some(EmptyOnPeek)
      ensures |queue| > 0 ==>
        operations == old(operations) + [QueueOperation(Peek, Some(queue[0]), queue)] && error == None
    {
      error := None;
      if |queue| == 0 {
        error := Some(EmptyOnPeek);
        return;
      }
      var frontValue := queue[0];
      operations := operations + [QueueOperation(Peek, Some(frontValue), queue)];
    }
  }
}
