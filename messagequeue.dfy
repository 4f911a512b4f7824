/** The message-queue visualizer: every message is first enqueued, then the
    queue is drained by repeatedly taking the message with the smallest
    priority number (ties to the earliest queued) and processing it. The
    outcome is a list of numbered operations, turned into animation frames
    that end with a 'complete' frame. */
module MessageQueue {
  import opened Common

  datatype Status = Waiting | Processing | Processed | Failed

  /** Ids and timestamps come from the clock and Math.random(); here they are
      whatever the caller supplies. */
  datatype Message = Message(id: int, content: string, priority: int, timestamp: int, sender: string, status: Status)

  datatype OperationType = Enqueue | Dequeue | Process

  datatype QueueOperation = QueueOperation(step: nat, kind: OperationType, message: Message,
                                           queueState: seq<Message>, processingMessage: Option<Message>)

  datatype AnimationType = EnqueueFrame | DequeueFrame | ProcessFrame | Complete

  datatype Animation = Animation(kind: AnimationType, step: nat, message: Option<Message>,
                                 queueState: seq<Message>, processingMessage: Option<Message>)

  function WithStatus(m: Message, s: Status): Message {
    m.(status := s)
  }

  /** `messages.map(m => ({ ...m, status: 'waiting' }))`. */
  function AllWaiting(messages: seq<Message>): (r: seq<Message>)
    ensures |r| == |messages|
    ensures forall k :: 0 <= k < |r| ==> r[k] == WithStatus(messages[k], Waiting)
  {
    if |messages| == 0 then [] else AllWaiting(messages[..|messages| - 1]) + [WithStatus(messages[|messages| - 1], Waiting)]
  }

  /** `queue.reduce((maxIndex, m, index) => queue[index].priority <
      queue[maxIndex].priority ? index : maxIndex, 0)` over the first k
      messages: the first position of the smallest priority number. */
  function ReduceMin(queue: seq<Message>, k: nat): (i: nat)
    requires 0 < k <= |queue|
    ensures i < k
    ensures forall j :: 0 <= j < k ==> queue[i].priority <= queue[j].priority
    ensures forall j :: 0 <= j < i ==> queue[i].priority < queue[j].priority
  {
    if k == 1 then 0
    else
      var m := ReduceMin(queue, k - 1);
      if queue[k - 1].priority < queue[m].priority then k - 1 else m
  }

  /** `queue.splice(i, 1)`. */
  function Remove(queue: seq<Message>, i: nat): (r: seq<Message>)
    requires i < |queue|
    ensures |r| == |queue| - 1
  {
    queue[..i] + queue[i + 1..]
  }

  /** The operations of the draining phase, starting at step number
      `step`, for the messages still queued. */
  function Drain(queue: seq<Message>, step: nat): seq<QueueOperation>
    decreases |queue|
  {
    if |queue| == 0 then []
    else
      var i := ReduceMin(queue, |queue|);
      var m := queue[i];
      var rest := Remove(queue, i);
      [QueueOperation(step, Dequeue, WithStatus(m, Processing), rest, Some(WithStatus(m, Processing))),
       QueueOperation(step + 1, Process, WithStatus(m, Processed), rest, Some(WithStatus(m, Processed)))]
      + Drain(rest, step + 2)
  }

  /** The k-th enqueue operation: the message joins and the recorded queue
      holds the first k + 1 messages. */
  function EnqueueOp(messages: seq<Message>, k: nat): QueueOperation
    requires k < |messages|
  {
    QueueOperation(k + 1, Enqueue, WithStatus(messages[k], Waiting), AllWaiting(messages[..k + 1]), None)
  }

  /** The first loop of processMessageQueue: every message joins the queue
      as 'waiting', one numbered enqueue operation each. */
  method EnqueueAll(messages: seq<Message>) returns (queue: seq<Message>, operations: seq<QueueOperation>)
    ensures queue == AllWaiting(messages)
    ensures |operations| == |messages|
    ensures forall k :: 0 <= k < |messages| ==> operations[k] == EnqueueOp(messages, k)
  {
    operations := [];
    queue := [];
    var stepCounter := 1;
    for n := 0 to |messages|
      invariant queue == AllWaiting(messages[..n])
      invariant stepCounter == n + 1
      invariant |operations| == n
      invariant forall k :: 0 <= k < n ==> operations[k] == EnqueueOp(messages, k)
    {
      var message := messages[n];
      assert messages[..n + 1][..n] == messages[..n];
      queue := queue + [WithStatus(message, Waiting)];
      operations := operations + [QueueOperation(stepCounter, Enqueue, WithStatus(message, Waiting), queue, None)];
      stepCounter := stepCounter + 1;
    }
    assert messages[..|messages|] == messages;
  }

  /** The second loop of processMessageQueue: while messages are queued,
      the one with the smallest priority number is dequeued and
      processed, two numbered operations per message. */
  method DrainQueue(queue0: seq<Message>, step: nat) returns (operations: seq<QueueOperation>)
    ensures operations == Drain(queue0, step)
  {
    operations := [];
    var queue := queue0;
    var stepCounter := step;
    while |queue| > 0
      invariant operations + Drain(queue, stepCounter) == Drain(queue0, step)
      decreases |queue|
    {
      var rest, round := DrainOne(queue, stepCounter);
      AppendAssociates(operations, round, Drain(rest, stepCounter + 2));
      operations := operations + round;
      queue := rest;
      stepCounter := stepCounter + 2;
    }
  }

  /** One round of the drain loop: the message with the smallest priority
      number is dequeued, then processed. */
  method DrainOne(queue: seq<Message>, stepCounter: nat) returns (rest: seq<Message>, round: seq<QueueOperation>)
    requires |queue| > 0
    ensures |rest| == |queue| - 1
    ensures Drain(queue, stepCounter) == round + Drain(rest, stepCounter + 2)
  {
    var highestPriorityIndex := ReduceMin(queue, |queue|);
    var messageToProcess := queue[highestPriorityIndex];
    rest := Remove(queue, highestPriorityIndex);
    round := [QueueOperation(stepCounter, Dequeue, WithStatus(messageToProcess, Processing), rest, Some(WithStatus(messageToProcess, Processing))),
              QueueOperation(stepCounter + 1, Process, WithStatus(messageToProcess, Processed), rest, Some(WithStatus(messageToProcess, Processed)))];
  }

  /** processMessageQueue: the enqueue operations, then the drain. */
  method ProcessMessageQueue(messages: seq<Message>) returns (operations: seq<QueueOperation>)
    ensures |operations| >= |messages|
    ensures forall k :: 0 <= k < |messages| ==> operations[k] == EnqueueOp(messages, k)
    ensures operations[|messages|..] == Drain(AllWaiting(messages), |messages| + 1)
  {
    var queue, enqueued := EnqueueAll(messages);
    var drained := DrainQueue(queue, |messages| + 1);
    operations := enqueued + drained;
    assert operations[|messages|..] == drained;
  }

  // ------------------------------------------------------------ the drain order

  /** The messages in the order the drain dequeues them. */
  function Schedule(queue: seq<Message>): (r: seq<Message>)
    ensures |r| == |queue|
    decreases |queue|
  {
    if |queue| == 0 then []
    else
      var i := ReduceMin(queue, |queue|);
      [queue[i]] + Schedule(Remove(queue, i))
  }

  ghost predicate PrioritySorted(s: seq<Message>) {
    forall i, j :: 0 <= i < j < |s| ==> s[i].priority <= s[j].priority
  }

  lemma RemovedBound(queue: seq<Message>, i: nat, b: int, j: nat)
    requires i < |queue| && j < |queue| - 1
    requires forall k :: 0 <= k < |queue| ==> b <= queue[k].priority
    ensures b <= Remove(queue, i)[j].priority
  {
    if j >= i {
      assert Remove(queue, i)[j] == queue[j + 1];
    } else {
      assert Remove(queue, i)[j] == queue[j];
    }
  }

  lemma {:induction false} ScheduleBound(queue: seq<Message>, b: int)
    requires forall k :: 0 <= k < |queue| ==> b <= queue[k].priority
    ensures forall k :: 0 <= k < |Schedule(queue)| ==> b <= Schedule(queue)[k].priority
    decreases |queue|
  {
    if |queue| > 0 {
      var i := ReduceMin(queue, |queue|);
      var rest := Remove(queue, i);
      forall j | 0 <= j < |rest| ensures b <= rest[j].priority {
        RemovedBound(queue, i, b, j);
      }
      ScheduleBound(rest, b);
    }
  }

  lemma RemovePermutes(queue: seq<Message>, i: nat)
    requires i < |queue|
    ensures multiset(Remove(queue, i)) + multiset{queue[i]} == multiset(queue)
  {
    assert queue == queue[..i] + [queue[i]] + queue[i + 1..];
  }

  /** Each queued message is dequeued exactly once. */
  lemma {:induction false} SchedulePermutes(queue: seq<Message>)
    ensures multiset(Schedule(queue)) == multiset(queue)
    decreases |queue|
  {
    if |queue| > 0 {
      var i := ReduceMin(queue, |queue|);
      SchedulePermutes(Remove(queue, i));
      RemovePermutes(queue, i);
    }
  }

  /** Messages are dequeued by priority number, smallest first. */
  lemma {:induction false} ScheduleSorted(queue: seq<Message>)
    ensures PrioritySorted(Schedule(queue))
    decreases |queue|
  {
    if |queue| > 0 {
      var i := ReduceMin(queue, |queue|);
      var rest := Remove(queue, i);
      ScheduleSorted(rest);
      forall j | 0 <= j < |rest| ensures queue[i].priority <= rest[j].priority {
        RemovedBound(queue, i, queue[i].priority, j);
      }
      ScheduleBound(rest, queue[i].priority);
    }
  }

  /** The drain takes two operations per message, numbered consecutively
      from `step`. */
  lemma {:induction false} DrainSteps(queue: seq<Message>, step: nat)
    ensures |Drain(queue, step)| == 2 * |queue|
    ensures forall k :: 0 <= k < |Drain(queue, step)| ==> Drain(queue, step)[k].step == step + k
    decreases |queue|
  {
    if |queue| > 0 {
      var rest := Remove(queue, ReduceMin(queue, |queue|));
      DrainSteps(rest, step + 2);
      var d := Drain(queue, step);
      forall k | 2 <= k < |d| ensures d[k].step == step + k {
        assert d[k] == Drain(rest, step + 2)[k - 2];
      }
    }
  }

  /** The k-th pair of the drain dequeues and then processes the k-th
      message of the schedule, and the queue it records has shrunk by
      k + 1 messages. */
  lemma {:induction false} DrainRound(queue: seq<Message>, step: nat, k: nat)
    requires k < |queue|
    ensures |Drain(queue, step)| == 2 * |queue|
    ensures var d := Drain(queue, step); var m := Schedule(queue)[k];
      && d[2 * k].kind == Dequeue && d[2 * k].message == WithStatus(m, Processing)
      && d[2 * k].processingMessage == Some(WithStatus(m, Processing))
      && d[2 * k + 1].kind == Process && d[2 * k + 1].message == WithStatus(m, Processed)
      && |d[2 * k].queueState| == |queue| - k - 1
    decreases k
  {
    DrainLength(queue, step);
    var i := ReduceMin(queue, |queue|);
    var rest := Remove(queue, i);
    var d, tail := Drain(queue, step), Drain(rest, step + 2);
    assert d[2..] == tail;
    assert Schedule(queue) == [queue[i]] + Schedule(rest);
    if k > 0 {
      DrainRound(rest, step + 2, k - 1);
      assert d[2 * k] == tail[2 * (k - 1)];
      assert d[2 * k + 1] == tail[2 * (k - 1) + 1];
      assert Schedule(queue)[k] == Schedule(rest)[k - 1];
    }
  }

  lemma {:induction false} DrainLength(queue: seq<Message>, step: nat)
    ensures |Drain(queue, step)| == 2 * |queue|
    decreases |queue|
  {
    if |queue| > 0 {
      DrainLength(Remove(queue, ReduceMin(queue, |queue|)), step + 2);
    }
  }

  /** processMessageQueue yields three operations per message, numbered
      1, 2, 3, ... without gaps. */
  lemma {:induction false} OperationCount(messages: seq<Message>, operations: seq<QueueOperation>)
    requires |operations| >= |messages|
    requires forall k :: 0 <= k < |messages| ==> operations[k] == EnqueueOp(messages, k)
    requires operations[|messages|..] == Drain(AllWaiting(messages), |messages| + 1)
    ensures |operations| == 3 * |messages|
    ensures forall k :: 0 <= k < |operations| ==> operations[k].step == k + 1
  {
    var n := |messages|;
    DrainSteps(AllWaiting(messages), n + 1);
    forall k | 0 <= k < |operations| ensures operations[k].step == k + 1 {
      if k >= n {
        assert operations[k] == operations[n..][k - n];
      } else {
        assert operations[k] == EnqueueOp(messages, k);
      }
    }
  }

  /** getAnimations: one frame per operation, numbered from 0, and a final
      'complete' frame with an empty queue. */
  function GetAnimations(operations: seq<QueueOperation>): (animations: seq<Animation>)
    ensures |animations| == |operations| + 1
    ensures animations[|operations|] == Animation(Complete, |operations|, None, [], None)
    ensures forall k :: 0 <= k < |operations| ==>
      && animations[k].step == k
      && animations[k].message == Some(operations[k].message)
      && animations[k].queueState == operations[k].queueState
      && animations[k].processingMessage == operations[k].processingMessage
      && animations[k].kind == (match operations[k].kind
                                 case Enqueue => EnqueueFrame
                                 case Dequeue => DequeueFrame
                                 case Process => ProcessFrame)
  {
    Frames(operations, 0) + [Animation(Complete, |operations|, None, [], None)]
  }

  function Frames(operations: seq<QueueOperation>, from: nat): (r: seq<Animation>)
    requires from <= |operations|
    ensures |r| == |operations| - from
    ensures forall k :: 0 <= k < |r| ==>
      && r[k].step == from + k
      && r[k].message == Some(operations[from + k].message)
      && r[k].queueState == operations[from + k].queueState
      && r[k].processingMessage == operations[from + k].processingMessage
      && r[k].kind == (match operations[from + k].kind
                       case Enqueue => EnqueueFrame
                       case Dequeue => DequeueFrame
                       case Process => ProcessFrame)
    decreases |operations| - from
  {
    if from == |operations| then []
    else
      var op := operations[from];
      var kind := match op.kind
                  case Enqueue => EnqueueFrame
                  case Dequeue => DequeueFrame
                  case Process => ProcessFrame;
      [Animation(kind, from, Some(op.message), op.queueState, op.processingMessage)] + Frames(operations, from + 1)
  }
}
