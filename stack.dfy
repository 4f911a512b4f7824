/** The stack visualizer: a bounded stack of integers typed into an input
    box, with push, pop, peek and reset handlers, a history of the
    operations and statistics computed from that history. Each history
    entry records the stack as it was when the handler started. */
module StackVisualizer {
  import opened Common

  const DEFAULT_STACK_LIMIT: int := 8
  const MAX_STACK_LIMIT: int := 15
  const MIN_STACK_LIMIT: int := 3

  datatype OperationKind = Push | Pop | Peek | Clear

  datatype StackOperation = StackOperation(operation: OperationKind, value: Option<int>, stackState: seq<int>)

  /** The messages the handlers put in the error banner. */
  datatype StackError = Full(limit: int) | NotANumber | EmptyOnPop | EmptyOnPeek

  datatype StackStats = StackStats(totalOperations: nat, pushCount: nat, popCount: nat, maxSize: nat, currentSize: nat)

  /** `operations.filter(op => op.operation === kind).length`. */
  function CountKind(operations: seq<StackOperation>, kind: OperationKind): (c: nat)
    ensures c <= |operations|
  {
    if |operations| == 0 then 0
    else CountKind(operations[..|operations| - 1], kind) + (if operations[|operations| - 1].operation == kind then 1 else 0)
  }

  /** `Math.max(0, ...operations.map(op => op.stackState.length))`. */
  function LongestState(operations: seq<StackOperation>): (m: nat)
    ensures forall k :: 0 <= k < |operations| ==> |operations[k].stackState| <= m
    ensures |operations| > 0 ==> exists k :: 0 <= k < |operations| && |operations[k].stackState| == m
  {
    if |operations| == 0 then 0
    else Max(LongestState(operations[..|operations| - 1]), |operations[|operations| - 1].stackState|)
  }

  /** The statistics panel as the visualizer computes it: maxSize looks at
      the recorded states only, which are the states before each
      operation. */
  function StatsAsWritten(operations: seq<StackOperation>, stack: seq<int>): StackStats {
    StackStats(|operations|, CountKind(operations, Push), CountKind(operations, Pop), LongestState(operations), |stack|)
  }

  /** The statistics with maxSize taking the current stack into account,
      as the queue and linked-list visualizers do. */
  function Stats(operations: seq<StackOperation>, stack: seq<int>): (s: StackStats)
    ensures s.currentSize <= s.maxSize
    ensures s.pushCount + s.popCount <= s.totalOperations == |operations|
    ensures forall k :: 0 <= k < |operations| ==> |operations[k].stackState| <= s.maxSize
  {
    CountPartition(operations);
    StackStats(|operations|, CountKind(operations, Push), CountKind(operations, Pop), Max(LongestState(operations), |stack|), |stack|)
  }

  lemma {:induction false} CountPartition(operations: seq<StackOperation>)
    ensures CountKind(operations, Push) + CountKind(operations, Pop) <= |operations|
  {
    if |operations| > 0 {
      CountPartition(operations[..|operations| - 1]);
    }
  }

  /** After a single push onto an empty stack, the panel as written shows
      a current size of 1 and a maximum size of 0. */
  lemma MaxSizeBelowCurrentSize()
    ensures StatsAsWritten([StackOperation(Push, Some(5), [])], [5]).maxSize == 0
    ensures StatsAsWritten([StackOperation(Push, Some(5), [])], [5]).currentSize == 1
  {
    var ops := [StackOperation(Push, Some(5), [])];
    assert ops[..0] == [];
  }

  class Stack {
    var stack: seq<int>
    var error: Option<StackError>
    var stackLimit: int
    var operations: seq<StackOperation>

    /** The slider keeps the limit within its bounds, and a push is only
        accepted below the limit, so no stack ever exceeds the slider's
        maximum. */
    ghost predicate Valid()
      reads this
    {
      && MIN_STACK_LIMIT <= stackLimit <= MAX_STACK_LIMIT
      && |stack| <= MAX_STACK_LIMIT
      && forall k :: 0 <= k < |operations| ==> |operations[k].stackState| <= MAX_STACK_LIMIT
    }

    constructor ()
      ensures Valid()
      ensures stack == [] && error == None && stackLimit == DEFAULT_STACK_LIMIT && operations == []
    {
      stack := [];
      error := None;
      stackLimit := DEFAULT_STACK_LIMIT;
      operations := [];
    }

    /** The limit slider. Lowering it below the current size keeps the
        elements and only blocks further pushes. */
    method SetStackLimit(limit: int)
      requires Valid() && MIN_STACK_LIMIT <= limit <= MAX_STACK_LIMIT
      modifies this
      ensures Valid()
      ensures stackLimit == limit
      ensures stack == old(stack) && error == old(error) && operations == old(operations)
    {
      stackLimit := limit;
    }

    /** handlePush: rejected when the stack is full, then when the input is
        not a number; otherwise the value goes on top. */
    method HandlePush(inputValue: string)
      requires Valid()
      modifies this
      ensures Valid() && stackLimit == old(stackLimit)
      ensures |old(stack)| >= old(stackLimit) ==>
        stack == old(stack) && operations == old(operations) && error == Some(Full(old(stackLimit)))
      ensures |old(stack)| < old(stackLimit) && ParseDecimal(inputValue).None? ==>
        stack == old(stack) && operations == old(operations) && error == Some(NotANumber)
      ensures |old(stack)| < old(stackLimit) && ParseDecimal(inputValue).Some? ==>
        var value := ParseDecimal(inputValue).value;
        && stack == old(stack) + [value]
        && operations == old(operations) + [StackOperation(Push, Some(value), old(stack))]
        && error == None
    {
      error := None;
      if |stack| >= stackLimit {
        error := Some(Full(stackLimit));
        return;
      }
      var value := ParseDecimal(inputValue);
      if value.None? {
        error := Some(NotANumber);
        return;
      }
      operations := operations + [StackOperation(Push, Some(value.value), stack)];
      stack := stack + [value.value];
    }

    /** handlePop: rejected on an empty stack; otherwise the top (last)
        element is removed. */
    method HandlePop()
      requires Valid()
      modifies this
      ensures Valid() && stackLimit == old(stackLimit)
      ensures |old(stack)| == 0 ==>
        stack == old(stack) && operations == old(operations) && error == Some(EmptyOnPop)
      ensures |old(stack)| > 0 ==>
        && stack == old(stack)[..|old(stack)| - 1]
        && operations == old(operations) + [StackOperation(Pop, Some(old(stack)[|old(stack)| - 1]), old(stack))]
        && error == None
    {
      error := None;
      if |stack| == 0 {
        error := Some(EmptyOnPop);
        return;
      }
      var poppedValue := stack[|stack| - 1];
      operations := operations + [StackOperation(Pop, Some(poppedValue), stack)];
      stack := stack[..|stack| - 1];
    }

    /** handlePeek: logs the top element and never changes the stack. */
    method HandlePeek()
      requires Valid()
      modifies this
      ensures Valid() && stackLimit == old(stackLimit) && stack == old(stack)
      ensures |stack| == 0 ==> operations == old(operations) && error == Some(EmptyOnPeek)
      ensures |stack| > 0 ==>
        operations == old(operations) + [StackOperation(Peek, Some(stack[|stack| - 1]), stack)] && error == None
    {
      error := None;
      if |stack| == 0 {
        error := Some(EmptyOnPeek);
        return;
      }
      var topValue := stack[|stack| - 1];
      operations := operations + [StackOperation(Peek, Some(topValue), stack)];
    }

    /** handleReset: the stack and the history are emptied, and the history
        then holds the single 'clear' entry, which records the stack as it
        was before the reset. */
    method HandleReset()
      requires Valid()
      modifies this
      ensures Valid() && stackLimit == old(stackLimit)
      ensures stack == [] && error == None
      ensures operations == [StackOperation(Clear, None, old(stack))]
    {
      var before := stack;
      error := None;
      stack := [];
      operations := [];
      operations := operations + [StackOperation(Clear, None, before)];
    }
  }

  /** Pushing and then popping restores the stack and returns the pushed
      value: the handlers' contracts compose to last-in, first-out. */
  method PushThenPop(s: Stack, inputValue: string) returns (popped: Option<int>)
    requires s.Valid() && |s.stack| < s.stackLimit && ParseDecimal(inputValue).Some?
    modifies s
    ensures s.Valid() && s.stack == old(s.stack)
    ensures popped == ParseDecimal(inputValue)
  {
    ghost var before := s.stack;
    s.HandlePush(inputValue);
    popped := Some(s.stack[|s.stack| - 1]);
    s.HandlePop();
    assert (before + [popped.value])[..|before|] == before;
  }
}
