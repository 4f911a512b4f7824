/** The linked-list visualizer: a bounded list of nodes, each with an id
    and an integer value, with insertion at the head, the tail or an index,
    deletion of the first node holding a value, search and clear. Ids come
    from the clock plus a counter that every created node advances; the
    clock is a parameter here. */
module LinkedListVisualizer {
  import opened Common

  const DEFAULT_LIST_LIMIT: int := 10
  const MIN_LIST_LIMIT: int := 5
  const MAX_LIST_LIMIT: int := 20

  datatype Node = Node(id: int, value: int)

  datatype Position = Head | Tail | At

  datatype OperationKind = InsertHead | InsertTail | InsertAt | Delete | Search | Clear

  datatype LinkedListOperation = LinkedListOperation(operation: OperationKind, value: Option<int>, index: Option<int>, listState: seq<Node>)

  datatype ListError = Full(limit: int) | NotANumberToInsert | BadIndex(length: int) | NotANumberToDelete
                     | NotFound(value: int) | NotANumberToSearch | NotInList(value: int)

  /** `list.findIndex(node => node.value === value)`. */
  function FindValue(list: seq<Node>, value: int): (r: int)
    ensures -1 <= r < |list|
    ensures r == -1 <==> forall k :: 0 <= k < |list| ==> list[k].value != value
    ensures r >= 0 ==> list[r].value == value && forall k :: 0 <= k < r ==> list[k].value != value
  {
    if |list| == 0 then -1
    else if list[0].value == value then 0
    else
      var k := FindValue(list[1..], value);
      if k == -1 then -1 else k + 1
  }

  /** Node ids never repeat. */
  ghost predicate DistinctIds(list: seq<Node>) {
    forall i, j :: 0 <= i < j < |list| ==> list[i].id != list[j].id
  }

  /** Every id in the list is below `bound`. */
  ghost predicate IdsBelow(list: seq<Node>, bound: int) {
    forall k :: 0 <= k < |list| ==> list[k].id < bound
  }

  lemma InsertKeepsDistinct(list: seq<Node>, index: int, node: Node, bound: int)
    requires 0 <= index <= |list| && DistinctIds(list) && IdsBelow(list, bound) && bound <= node.id
    ensures DistinctIds(list[..index] + [node] + list[index..])
    ensures IdsBelow(list[..index] + [node] + list[index..], node.id + 1)
  {
    var r := list[..index] + [node] + list[index..];
    forall k | 0 <= k < |r|
      ensures r[k] == (if k < index then list[k] else if k == index then node else list[k - 1])
    {
    }
  }

  /** Inserting at index 0 or at the length puts the node first or last. */
  lemma SpliceEnds(list: seq<Node>, node: Node)
    ensures list[..0] + [node] + list[0..] == [node] + list
    ensures list[..|list|] + [node] + list[|list|..] == list + [node]
  {
    assert list[..0] == [] && list[0..] == list;
    assert list[..|list|] == list && list[|list|..] == [];
  }

  lemma RemoveKeepsDistinct(list: seq<Node>, index: int, bound: int)
    requires 0 <= index < |list| && DistinctIds(list) && IdsBelow(list, bound)
    ensures DistinctIds(list[..index] + list[index + 1..]) && IdsBelow(list[..index] + list[index + 1..], bound)
  {
    var r := list[..index] + list[index + 1..];
    forall k | 0 <= k < |r|
      ensures r[k] == (if k < index then list[k] else list[k + 1])
    {
    }
  }

  /** The outcome of handleInsert once the value has parsed: head and tail
      put the node first or last; 'at' puts it at a parsed index within
      0..length and otherwise changes nothing but the error. */
  ghost predicate InsertedAs(position: Position, node: Node, index: Option<int>, list0: seq<Node>,
                             operations0: seq<LinkedListOperation>, list: seq<Node>,
                             operations: seq<LinkedListOperation>, error: Option<ListError>)
  {
    && (position == Head ==>
          list == [node] + list0 && error == None
          && operations == operations0 + [LinkedListOperation(InsertHead, Some(node.value), Some(0), list0)])
    && (position == Tail ==>
          list == list0 + [node] && error == None
          && operations == operations0 + [LinkedListOperation(InsertTail, Some(node.value), Some(|list0|), list0)])
    && (position == At && index.Some? && 0 <= index.value <= |list0| ==>
          list == list0[..index.value] + [node] + list0[index.value..] && error == None
          && operations == operations0 + [LinkedListOperation(InsertAt, Some(node.value), Some(index.value), list0)])
    && (position == At && !(index.Some? && 0 <= index.value <= |list0|) ==>
          list == list0 && operations == operations0 && error == Some(BadIndex(|list0|)))
  }

  class LinkedList {
    var list: seq<Node>
    var error: Option<ListError>
    var listLimit: int
    var operations: seq<LinkedListOperation>
    /** nodeId.current, the counter added to the clock. */
    var nodeId: nat
    /** The clock reading of the last node created. */
    var lastNow: int

    /** The list stays within the slider's maximum, and every node's id is
        below the id the next node would get, so ids are distinct. */
    ghost predicate Valid()
      reads this
    {
      && MIN_LIST_LIMIT <= listLimit <= MAX_LIST_LIMIT
      && |list| <= MAX_LIST_LIMIT
      && DistinctIds(list)
      && IdsBelow(list, lastNow + nodeId)
    }

    constructor (now: int)
      ensures Valid()
      ensures list == [] && error == None && listLimit == DEFAULT_LIST_LIMIT && operations == []
      ensures nodeId == 0 && lastNow == now
    {
      list := [];
      error := None;
      listLimit := DEFAULT_LIST_LIMIT;
      operations := [];
      nodeId := 0;
      lastNow := now;
    }

    method SetListLimit(limit: int)
      requires Valid() && MIN_LIST_LIMIT <= limit <= MAX_LIST_LIMIT
      modifies this
      ensures Valid() && listLimit == limit
      ensures list == old(list) && error == old(error) && operations == old(operations)
      ensures nodeId == old(nodeId) && lastNow == old(lastNow)
    {
      listLimit := limit;
    }

    /** createNode: the id is Date.now() + nodeId.current++, strictly above
        every id handed out before as long as the clock does not go back. */
    method CreateNode(value: int, now: int) returns (node: Node)
      requires Valid() && now >= lastNow
      modifies this
      ensures Valid()
      ensures node.value == value && node.id == now + old(nodeId)
      ensures IdsBelow(list, node.id) && nodeId == old(nodeId) + 1 && lastNow == now
      ensures list == old(list) && error == old(error) && operations == old(operations) && listLimit == old(listLimit)
    {
      node := Node(now + nodeId, value);
      nodeId := nodeId + 1;
      lastNow := now;
    }

    /** handleInsert: rejected at capacity, then for a value that is not a
        number; 'head' and 'tail' put the node first or last, 'at' parses
        the index and rejects it unless 0 <= index <= length. The node is
        created before the index is checked, so a rejected index still
        advances the counter. */
    method HandleInsert(position: Position, valueStr: string, insertIndex: string, now: int)
      requires Valid() && now >= lastNow
      modifies this
      ensures Valid() && listLimit == old(listLimit)
      ensures |old(list)| >= old(listLimit) || ParseDecimal(valueStr).None? ==>
        list == old(list) && operations == old(operations) && nodeId == old(nodeId)
      ensures |old(list)| >= old(listLimit) ==> error == Some(Full(old(listLimit)))
      ensures |old(list)| < old(listLimit) && ParseDecimal(valueStr).None? ==> error == Some(NotANumberToInsert)
      ensures |old(list)| < old(listLimit) && ParseDecimal(valueStr).Some? ==>
        nodeId == old(nodeId) + 1
        && InsertedAs(position, Node(now + old(nodeId), ParseDecimal(valueStr).value), ParseDecimal(insertIndex),
                      old(list), old(operations), list, operations, error)
    {
      error := None;
      if |list| >= listLimit {
        error := Some(Full(listLimit));
        return;
      }
      var value := ParseDecimal(valueStr);
      if value.None? {
        error := Some(NotANumberToInsert);
        return;
      }
      InsertValue(position, value.value, insertIndex, now);
    }

    /** handleInsert after its two checks: the node is created, then placed. */
    method InsertValue(position: Position, value: int, insertIndex: string, now: int)
      requires Valid() && now >= lastNow && |list| < listLimit && error == None
      modifies this
      ensures Valid() && listLimit == old(listLimit)
      ensures nodeId == old(nodeId) + 1
      ensures InsertedAs(position, Node(now + old(nodeId), value), ParseDecimal(insertIndex), old(list), old(operations), list, operations, error)
    {
      var newNode := CreateNode(value, now);
      match position {
        case Head =>
          SpliceEnds(list, newNode);
          PlaceNode(newNode, 0, InsertHead);
        case Tail =>
          SpliceEnds(list, newNode);
          PlaceNode(newNode, |list|, InsertTail);
        case At =>
          var index := ParseDecimal(insertIndex);
          if index.None? || index.value < 0 || index.value > |list| {
            error := Some(BadIndex(|list|));
            return;
          }
          PlaceNode(newNode, index.value, InsertAt);
      }
    }

    /** The accepted branch of handleInsert: the node goes in at `index`
        and the insertion is logged with the list as it was. */
    method PlaceNode(node: Node, index: nat, kind: OperationKind)
      requires Valid() && index <= |list| && |list| < listLimit && IdsBelow(list, node.id)
      requires node.id < lastNow + nodeId
      modifies this
      ensures Valid() && listLimit == old(listLimit) && nodeId == old(nodeId) && lastNow == old(lastNow) && error == old(error)
      ensures list == old(list)[..index] + [node] + old(list)[index..]
      ensures operations == old(operations) + [LinkedListOperation(kind, Some(node.value), Some(index), old(list))]
    {
      InsertKeepsDistinct(list, index, node, node.id);
      operations := operations + [LinkedListOperation(kind, Some(node.value), Some(index), list)];
      list := list[..index] + [node] + list[index..];
    }

    /** handleDelete: the value must parse and be present; only the first
        node holding it is removed. */
    method HandleDelete(valueStr: string)
      requires Valid()
      modifies this
      ensures Valid() && listLimit == old(listLimit) && nodeId == old(nodeId) && lastNow == old(lastNow)
      ensures ParseDecimal(valueStr).None? ==>
        list == old(list) && operations == old(operations) && error == Some(NotANumberToDelete)
      ensures ParseDecimal(valueStr).Some? ==>
        var value := ParseDecimal(valueStr).value;
        var nodeIndex := FindValue(old(list), value);
        && (nodeIndex == -1 ==> list == old(list) && operations == old(operations) && error == Some(NotFound(value)))
        && (nodeIndex >= 0 ==>
              && list == old(list)[..nodeIndex] + old(list)[nodeIndex + 1..]
              && operations == old(operations) + [LinkedListOperation(Delete, Some(value), Some(nodeIndex), old(list))]
              && error == None)
    {
      error := None;
      var value := ParseDecimal(valueStr);
      if value.None? {
        error := Some(NotANumberToDelete);
        return;
      }
      var nodeIndex := FindValue(list, value.value);
      if nodeIndex == -1 {
        error := Some(NotFound(value.value));
        return;
      }
      RemoveNode(nodeIndex, value.value);
    }

    /** The accepted branch of handleDelete: the node at `index` is
        removed and the deletion is logged with the list as it was. */
    method RemoveNode(index: nat, value: int)
      requires Valid() && index < |list|
      modifies this
      ensures Valid() && listLimit == old(listLimit) && nodeId == old(nodeId) && lastNow == old(lastNow) && error == old(error)
      ensures list == old(list)[..index] + old(list)[index + 1..]
      ensures operations == old(operations) + [LinkedListOperation(Delete, Some(value), Some(index), old(list))]
    {
      RemoveKeepsDistinct(list, index, lastNow + nodeId);
      operations := operations + [LinkedListOperation(Delete, Some(value), Some(index), list)];
      list := list[..index] + list[index + 1..];
    }

    /** handleSearch, once its animated walk has finished: the index of the
        first node holding the value is logged, or -1 with an error. */
    method HandleSearch(searchValue: string)
      requires Valid()
      modifies this
      ensures Valid() && list == old(list) && listLimit == old(listLimit) && nodeId == old(nodeId) && lastNow == old(lastNow)
      ensures ParseDecimal(searchValue).None? ==> operations == old(operations) && error == Some(NotANumberToSearch)
      ensures ParseDecimal(searchValue).Some? ==>
        var value := ParseDecimal(searchValue).value;
        var k := FindValue(list, value);
        && operations == old(operations) + [LinkedListOperation(Search, Some(value), Some(k), list)]
        && error == (if k == -1 then Some(NotInList(value)) else None)
    {
      error := None;
      var value := ParseDecimal(searchValue);
      if value.None? {
        error := Some(NotANumberToSearch);
        return;
      }
      var currentIndex := FindValue(list, value.value);
      if currentIndex == -1 {
        error := Some(NotInList(value.value));
      }
      operations := operations + [LinkedListOperation(Search, Some(value.value), Some(currentIndex), list)];
    }

    /** handleClear: the list is emptied and one 'clear' entry is logged. */
    method HandleClear()
      requires Valid()
      modifies this
      ensures Valid() && listLimit == old(listLimit) && nodeId == old(nodeId) && lastNow == old(lastNow)
      ensures list == [] && error == None
      ensures operations == old(operations) + [LinkedListOperation(Clear, None, None, old(list))]
    {
      operations := operations + [LinkedListOperation(Clear, None, None, list)];
      list := [];
      error := None;
    }
  }
}
