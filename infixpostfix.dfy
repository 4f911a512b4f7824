/** The infix-to-postfix screen: an expression is checked (allowed
    characters, balanced parentheses, no two operators in a row, no operator
    at either end except a leading minus) and then converted with the
    shunting-yard method, operands going straight to the output and operators
    waiting on a stack by precedence. */
module InfixToPostfix {
  import opened Common

  // ------------------------------------------------------ characters

  predicate IsOperator(c: char) {
    c == '+' || c == '-' || c == '*' || c == '/' || c == '^'
  }

  /** A single ASCII letter or digit. */
  predicate IsOperand(c: char) {
    'a' <= c <= 'z' || 'A' <= c <= 'Z' || '0' <= c <= '9'
  }

  /** Binding strength: '^' over '*' and '/' over '+' and '-'. */
  function Precedence(c: char): (p: int)
    ensures 0 <= p <= 3
    ensures p > 0 <==> IsOperator(c)
  {
    match c
    case '+' => 1
    case '-' => 1
    case '*' => 2
    case '/' => 2
    case '^' => 3
    case _ => 0
  }

  predicate IsRightAssociative(c: char) {
    c == '^'
  }

  predicate Allowed(c: char) {
    IsOperand(c) || IsOperator(c) || c == '(' || c == ')'
  }

  /** The operand characters of s, in order. */
  function Operands(s: string): string {
    if |s| == 0 then []
    else Operands(s[..|s| - 1]) + (if IsOperand(s[|s| - 1]) then [s[|s| - 1]] else [])
  }

  /** The operand and operator characters of s, in order. */
  function Tokens(s: string): string {
    if |s| == 0 then []
    else
      var c := s[|s| - 1];
      Tokens(s[..|s| - 1]) + (if IsOperand(c) || IsOperator(c) then [c] else [])
  }

  lemma OperandsAppend(s: string, c: char)
    ensures Operands(s + [c]) == Operands(s) + (if IsOperand(c) then [c] else [])
    ensures Tokens(s + [c]) == Tokens(s) + (if IsOperand(c) || IsOperator(c) then [c] else [])
  {
    assert (s + [c])[..|s|] == s;
  }

  // ------------------------------------------------------ parentheses

  function Delta(c: char): int {
    if c == '(' then 1 else if c == ')' then -1 else 0
  }

  /** Open parentheses minus closing ones in s. */
  function Depth(s: string): int {
    if |s| == 0 then 0 else Depth(s[..|s| - 1]) + Delta(s[|s| - 1])
  }

  lemma {:induction false} DepthCounts(s: string)
    ensures Depth(s) == multiset(s)['('] as int - multiset(s)[')'] as int
  {
    if |s| > 0 {
      DepthCounts(s[..|s| - 1]);
      assert s == s[..|s| - 1] + [s[|s| - 1]];
    }
  }

  /** No prefix of s closes more parentheses than it opened. */
  predicate NeverNegative(s: string) {
    |s| == 0 || (NeverNegative(s[..|s| - 1]) && Depth(s) >= 0)
  }

  /** The same, stated over all prefixes. */
  lemma {:induction false} NeverNegativePrefixes(s: string)
    ensures NeverNegative(s) <==> forall k :: 0 <= k <= |s| ==> Depth(s[..k]) >= 0
  {
    if |s| > 0 {
      var t := s[..|s| - 1];
      NeverNegativePrefixes(t);
      assert s[..|s|] == s;
      forall k | 0 <= k <= |t|
        ensures s[..k] == t[..k]
      {
      }
    }
  }

  predicate Balanced(s: string) {
    NeverNegative(s) && Depth(s) == 0
  }

  lemma {:induction false} NeverNegativePrefix(s: string, k: int)
    requires 0 <= k <= |s|
    ensures NeverNegative(s) ==> NeverNegative(s[..k])
  {
    if k < |s| {
      NeverNegativePrefix(s[..|s| - 1], k);
      assert s[..|s| - 1][..k] == s[..k];
    } else {
      assert s[..k] == s;
    }
  }

  lemma DepthAppend(s: string, c: char)
    ensures Depth(s + [c]) == Depth(s) + Delta(c)
    ensures NeverNegative(s + [c]) <==> NeverNegative(s) && Depth(s + [c]) >= 0
  {
    assert (s + [c])[..|s|] == s;
  }

  ghost predicate AdjacentOperators(s: string) {
    exists k :: 0 <= k < |s| - 1 && IsOperator(s[k]) && IsOperator(s[k + 1])
  }

  // ------------------------------------------------------ validation

  datatype Error =
    | EmptyExpression
    | InvalidCharacter(c: char)
    | MismatchedClosingParenthesis
    | MismatchedParentheses
    | ConsecutiveOperators
    | LeadingOperator
    | TrailingOperator

  datatype Validation = Valid | Invalid(error: Error)

  /** The first character that may not appear in an expression. */
  function Disallowed(s: string): (r: Option<char>)
    ensures r == None <==> forall k :: 0 <= k < |s| ==> Allowed(s[k])
    ensures r.Some? ==> r.value in s && !Allowed(r.value)
  {
    if |s| == 0 then None
    else if !Allowed(s[0]) then Some(s[0])
    else Disallowed(s[1..])
  }

  /** The verdict on a whitespace-free expression, the checks taken in the
      order page lines 63-108 make them. */
  ghost function Diagnose(s: string): Validation {
    if |s| == 0 then Invalid(EmptyExpression)
    else if Disallowed(s).Some? then Invalid(InvalidCharacter(Disallowed(s).value))
    else if !NeverNegative(s) then Invalid(MismatchedClosingParenthesis)
    else if Depth(s) != 0 then Invalid(MismatchedParentheses)
    else if AdjacentOperators(s) then Invalid(ConsecutiveOperators)
    else if IsOperator(s[0]) && s[0] != '-' then Invalid(LeadingOperator)
    else if IsOperator(s[|s| - 1]) then Invalid(TrailingOperator)
    else Valid
  }

  /** An accepted expression is non-empty, uses only allowed characters, is
      balanced, has no two operators in a row and no operator at its ends
      other than a leading minus. */
  lemma ValidMeans(s: string)
    ensures Diagnose(s) == Valid <==>
      |s| > 0 && (forall k :: 0 <= k < |s| ==> Allowed(s[k])) && Balanced(s)
      && !AdjacentOperators(s) && (IsOperator(s[0]) ==> s[0] == '-') && !IsOperator(s[|s| - 1])
  {
  }

  /** The character check of page lines 71-77. */
  method FindDisallowed(s: string) returns (r: Option<char>)
    ensures r == Disallowed(s)
  {
    for i := 0 to |s|
      invariant Disallowed(s) == Disallowed(s[i..])
    {
      assert s[i..][1..] == s[i + 1..];
      if !Allowed(s[i]) {
        return Some(s[i]);
      }
    }
    return None;
  }

  /** The parenthesis count of page lines 79-91: it fails as soon as a
      closing parenthesis has no partner, and at the end unless every opening
      one was closed. */
  method CheckParentheses(s: string) returns (v: Validation)
    ensures !NeverNegative(s) ==> v == Invalid(MismatchedClosingParenthesis)
    ensures NeverNegative(s) && Depth(s) != 0 ==> v == Invalid(MismatchedParentheses)
    ensures Balanced(s) ==> v == Valid
  {
    var parenthesesCount := 0;
    for i := 0 to |s|
      invariant parenthesesCount == Depth(s[..i]) && NeverNegative(s[..i])
    {
      assert s[..i + 1] == s[..i] + [s[i]];
      DepthAppend(s[..i], s[i]);
      if s[i] == '(' {
        parenthesesCount := parenthesesCount + 1;
      }
      if s[i] == ')' {
        parenthesesCount := parenthesesCount - 1;
      }
      if parenthesesCount < 0 {
        NeverNegativePrefix(s, i + 1);
        return Invalid(MismatchedClosingParenthesis);
      }
    }
    assert s[..|s|] == s;
    if parenthesesCount != 0 {
      return Invalid(MismatchedParentheses);
    }
    return Valid;
  }

  /** The scan for two operators in a row (page lines 93-98). */
  method HasAdjacentOperators(s: string) returns (b: bool)
    ensures b == AdjacentOperators(s)
  {
    var i := 0;
    while i < |s| - 1
      invariant 0 <= i && (i <= |s| - 1 || i == 0)
      invariant forall k :: 0 <= k < i ==> !(IsOperator(s[k]) && IsOperator(s[k + 1]))
    {
      if IsOperator(s[i]) && IsOperator(s[i + 1]) {
        return true;
      }
      i := i + 1;
    }
    return false;
  }

  /** The whole check of page lines 63-108, on the expression with its
      whitespace removed. */
  method ValidateExpression(expression: string) returns (v: Validation)
    ensures v == Diagnose(RemoveWhitespace(expression))
  {
    var cleanExpr := RemoveWhitespace(expression);
    if |cleanExpr| == 0 {
      return Invalid(EmptyExpression);
    }
    var invalid := FindDisallowed(cleanExpr);
    if invalid.Some? {
      return Invalid(InvalidCharacter(invalid.value));
    }
    v := CheckParentheses(cleanExpr);
    if v.Invalid? {
      return;
    }
    var adjacent := HasAdjacentOperators(cleanExpr);
    if adjacent {
      return Invalid(ConsecutiveOperators);
    }
    if IsOperator(cleanExpr[0]) && cleanExpr[0] != '-' {
      return Invalid(LeadingOperator);
    }
    if IsOperator(cleanExpr[|cleanExpr| - 1]) {
      return Invalid(TrailingOperator);
    }
    return Valid;
  }

  // ------------------------------------------------------ reference

  /** An expression without parentheses: single-character operands and
      operators alternate, starting and ending with an operand. */
  predicate Flat(e: string) {
    |e| % 2 == 1
    && forall k :: 0 <= k < |e| ==> if k % 2 == 0 then IsOperand(e[k]) else IsOperator(e[k])
  }

  lemma FlatParts(e: string, m: int)
    requires Flat(e) && 0 < m < |e| && m % 2 == 1
    ensures Flat(e[..m]) && Flat(e[m + 1..])
  {
    var r := e[m + 1..];
    assert forall k :: 0 <= k < |r| ==> r[k] == e[m + 1 + k];
  }

  lemma FlatPrefix(e: string, n: int)
    requires Flat(e) && 0 < n <= |e| && n % 2 == 1
    ensures Flat(e[..n])
  {
    if n < |e| {
      FlatParts(e, n);
    } else {
      assert e[..n] == e;
    }
  }

  /** A string without parentheses is balanced. */
  lemma {:induction false} NoParentheses(s: string)
    requires '(' !in s && ')' !in s
    ensures Balanced(s)
  {
    if |s| > 0 {
      NoParentheses(s[..|s| - 1]);
    }
  }

  /** Every expression without parentheses passes the checks. */
  lemma FlatValid(e: string)
    requires Flat(e)
    ensures Diagnose(e) == Valid
  {
    assert forall k :: 0 <= k < |e| ==> e[k] != '(' && e[k] != ')' && Allowed(e[k]);
    NoParentheses(e);
    assert !AdjacentOperators(e);
  }

  /** Written after operator a, operator o is applied before it: o binds
      more tightly, or as tightly and groups to the right. */
  predicate Tighter(a: char, o: char) {
    Precedence(o) > Precedence(a) || (Precedence(o) == Precedence(a) && IsRightAssociative(o))
  }

  /** The operator at the odd index m of an expression without parentheses
      is the one applied last: every operator before it is applied before it,
      and so is every operator after it. */
  ghost predicate IsMain(e: string, m: int) {
    0 < m < |e| && m % 2 == 1
    && (forall k :: 0 < k < m && k % 2 == 1 ==> !Tighter(e[k], e[m]))
    && (forall k :: m < k < |e| && k % 2 == 1 ==> Tighter(e[m], e[k]))
  }

  /** At most one operator is applied last. */
  lemma MainUnique(e: string, m: int, m': int)
    requires IsMain(e, m) && IsMain(e, m')
    ensures m == m'
  {
    assert Tighter(e[m], e[m']) || !Tighter(e[m], e[m']);
    assert Tighter(e[m'], e[m]) || !Tighter(e[m'], e[m]);
  }

  lemma MainUniqueAll(e: string)
    ensures forall m, m' :: IsMain(e, m) && IsMain(e, m') ==> m == m'
  {
    forall m, m' | IsMain(e, m) && IsMain(e, m')
      ensures m == m'
    {
      MainUnique(e, m, m');
    }
  }

  /** Appending an operator o and an operand: o is applied last unless the
      operator applied last so far is applied after o. */
  lemma MainSnoc(p: string, m: int, o: char, x: char)
    requires |p| % 2 == 1 && IsMain(p, m) && IsOperator(o)
    ensures IsMain(p + [o, x], if Tighter(p[m], o) then m else |p|)
  {
    var e := p + [o, x];
    assert forall k :: 0 <= k < |p| ==> e[k] == p[k];
    if !Tighter(p[m], o) {
      forall k | 0 < k < |p| && k % 2 == 1
        ensures !Tighter(e[k], o)
      {
        if k < m {
          assert !Tighter(p[k], p[m]);
        } else if m < k {
          assert Tighter(p[m], p[k]);
        }
      }
    }
  }

  /** Every expression without parentheses and with an operator has one
      applied last. */
  lemma {:induction false} MainExists(e: string)
    requires Flat(e) && |e| > 1
    ensures exists m :: IsMain(e, m)
    decreases |e|
  {
    var p := e[..|e| - 2];
    assert e == p + [e[|e| - 2], e[|e| - 1]];
    if |p| == 1 {
      OnlyOperator(e);
    } else {
      FlatParts(e, |e| - 2);
      MainExists(p);
      var m :| IsMain(p, m);
      MainSnoc(p, m, e[|e| - 2], e[|e| - 1]);
    }
  }

  /** An expression tree: an operand, or an operator with its two operands. */
  datatype Tree = Leaf(operand: char) | Node(op: char, left: Tree, right: Tree)

  /** The tree of an expression without parentheses: it is split at the
      operator applied last, and each side is read the same way. */
  ghost function Build(e: string): Tree
    requires Flat(e)
    decreases |e|
  {
    if |e| == 1 then Leaf(e[0])
    else
      MainExists(e);
      var m :| IsMain(e, m);
      FlatParts(e, m);
      Node(e[m], Build(e[..m]), Build(e[m + 1..]))
  }

  /** The operator applied last, and the split there. */
  lemma MainOf(e: string) returns (m: int)
    requires Flat(e) && |e| > 1
    ensures IsMain(e, m) && Flat(e[..m]) && Flat(e[m + 1..])
    ensures Build(e) == Node(e[m], Build(e[..m]), Build(e[m + 1..]))
  {
    MainExists(e);
    m :| IsMain(e, m);
    BuildAt(e, m);
  }

  lemma BuildAt(e: string, m: int)
    requires Flat(e) && IsMain(e, m)
    ensures Flat(e[..m]) && Flat(e[m + 1..])
    ensures Build(e) == Node(e[m], Build(e[..m]), Build(e[m + 1..]))
  {
    MainUniqueAll(e);
    FlatParts(e, m);
  }

  /** The postfix listing of a tree: each operator after its two operands. */
  function PostOrder(t: Tree): seq<char> {
    match t
    case Leaf(c) => [c]
    case Node(op, l, r) => PostOrder(l) + PostOrder(r) + [op]
  }

  /** The operators on the right edge of a tree, from its root down. */
  function RightEdge(t: Tree): seq<char> {
    match t
    case Leaf(_) => []
    case Node(op, _, r) => [op] + RightEdge(r)
  }

  /** The postfix listing of a tree without the operators of its right
      edge: the left operands along that edge, then its last operand. */
  function Settled(t: Tree): seq<char> {
    match t
    case Leaf(c) => [c]
    case Node(_, l, r) => PostOrder(l) + Settled(r)
  }

  /** '-' groups to the left, '^' to the right, and '*' is applied before
      '+' on either side of it. */
  lemma AssociativityExamples()
    ensures PostOrder(Build("a-b-c")) == "ab-c-"
    ensures PostOrder(Build("a^b^c")) == "abc^^"
  {
    var e := "a-b-c";
    assert Flat(e) && IsMain(e, 3);
    LeftGrouping(e);
    e := "a^b^c";
    assert Flat(e) && IsMain(e, 1);
    RightGrouping(e);
  }

  lemma PrecedenceExamples()
    ensures PostOrder(Build("a+b*c")) == "abc*+"
    ensures PostOrder(Build("a*b+c")) == "ab*c+"
  {
    var e := "a+b*c";
    assert Flat(e) && IsMain(e, 1);
    RightGrouping(e);
    e := "a*b+c";
    assert Flat(e) && IsMain(e, 3);
    LeftGrouping(e);
  }

  lemma LeftGrouping(e: string)
    requires Flat(e) && |e| == 5 && IsMain(e, 3)
    ensures PostOrder(Build(e)) == [e[0], e[2], e[1], e[4], e[3]]
  {
    BuildAt(e, 3);
    var l := e[..3];
    assert l[..1] == [e[0]] && l[1] == e[1] && l[2..] == [e[2]] && e[4..] == [e[4]];
    assert IsMain(l, 1);
    BuildAt(l, 1);
    BuildLeaf(l[..1]);
    BuildLeaf(l[2..]);
    BuildLeaf(e[4..]);
    assert PostOrder(Build(l)) == [e[0], e[2], e[1]];
  }

  lemma RightGrouping(e: string)
    requires Flat(e) && |e| == 5 && IsMain(e, 1)
    ensures PostOrder(Build(e)) == [e[0], e[2], e[4], e[3], e[1]]
  {
    BuildAt(e, 1);
    var r := e[2..];
    assert e[..1] == [e[0]] && r[..1] == [e[2]] && r[1] == e[3] && r[2..] == [e[4]];
    assert IsMain(r, 1);
    BuildAt(r, 1);
    BuildLeaf(e[..1]);
    BuildLeaf(r[..1]);
    BuildLeaf(r[2..]);
    assert PostOrder(Build(r)) == [e[2], e[4], e[3]];
  }

  /** The right edge comes last in the listing, from the bottom up. */
  lemma {:induction false} PostOrderSplit(t: Tree)
    ensures PostOrder(t) == Settled(t) + Reversed(RightEdge(t))
  {
    match t
    case Leaf(_) =>
    case Node(op, l, r) =>
      PostOrderSplit(r);
      assert ([op] + RightEdge(r))[1..] == RightEdge(r);
  }

  /** Going down the right edge, each operator is applied after the one
      below it. */
  ghost predicate Chain(s: seq<char>) {
    forall j :: 0 < j < |s| ==> Tighter(s[j - 1], s[j])
  }

  lemma {:induction false} EdgeChain(e: string)
    requires Flat(e)
    ensures Chain(RightEdge(Build(e)))
    ensures forall j :: 0 <= j < |RightEdge(Build(e))| ==> IsOperator(RightEdge(Build(e))[j])
    decreases |e|
  {
    if |e| > 1 {
      var m := MainOf(e);
      var r := e[m + 1..];
      EdgeChain(r);
      assert RightEdge(Build(e)) == [e[m]] + RightEdge(Build(r));
      if |r| > 1 {
        var m' := MainOf(r);
        assert RightEdge(Build(r))[0] == r[m'] == e[m + 1 + m'];
      }
      ChainCons(e[m], RightEdge(Build(r)));
    }
  }

  lemma ChainCons(a: char, s: seq<char>)
    requires IsOperator(a) && Chain(s) && (s == [] || Tighter(a, s[0]))
    requires forall j :: 0 <= j < |s| ==> IsOperator(s[j])
    ensures Chain([a] + s) && forall j :: 0 <= j < |[a] + s| ==> IsOperator(([a] + s)[j])
  {
  }

  /** Transitivity down a chain: if the operator at n - 1 is applied before
      o, so is every operator beneath it. */
  lemma {:induction false} TighterBelow(s: seq<char>, n: int, o: char)
    requires Chain(s) && 0 < n <= |s| && Tighter(s[n - 1], o)
    ensures forall k :: 0 <= k < n ==> Tighter(s[k], o)
    decreases n
  {
    if n > 1 {
      assert Tighter(s[n - 2], s[n - 1]);
      TighterBelow(s, n - 1, o);
    }
  }

  /** The tree after o and x are appended: o goes down the right edge past
      every operator applied after it, and the subtree it stops at becomes
      its left operand. */
  function Graft(t: Tree, o: char, x: char): Tree {
    match t
    case Leaf(_) => Node(o, t, Leaf(x))
    case Node(op, l, r) =>
      if Tighter(op, o) then Node(op, l, Graft(r, o, x)) else Node(o, t, Leaf(x))
  }

  lemma {:induction false} BuildSnoc(p: string, o: char, x: char)
    requires Flat(p + [o, x])
    ensures Flat(p) && Build(p + [o, x]) == Graft(Build(p), o, x)
    decreases |p|
  {
    var e := p + [o, x];
    FlatParts(e, |p|);
    assert e[..|p|] == p;
    if |p| == 1 {
      BuildAtRoot(p, o, x);
    } else {
      MainExists(p);
      var m :| IsMain(p, m);
      BuildAt(p, m);
      if Tighter(p[m], o) {
        BuildAtRight(p, m, o, x);
        BuildSnoc(p[m + 1..], o, x);
      } else {
        assert IsOperator(e[|p|]);
        MainSnoc(p, m, o, x);
        BuildAtRoot(p, o, x);
      }
    }
  }

  /** o is applied last in p + [o, x] when nothing in p is applied after it. */
  lemma BuildAtRoot(p: string, o: char, x: char)
    requires Flat(p + [o, x]) && Flat(p)
    requires |p| == 1 || IsMain(p + [o, x], |p|)
    ensures Build(p + [o, x]) == Node(o, Build(p), Leaf(x))
  {
    var e := p + [o, x];
    assert e[..|p|] == p && e[|p| + 1..] == [x] && e[|p|] == o;
    if |p| == 1 {
      OnlyOperator(e);
    }
    BuildAt(e, |p|);
    BuildLeaf([x]);
  }

  /** The single operator of a three-character expression is applied last. */
  lemma OnlyOperator(e: string)
    requires |e| == 3
    ensures IsMain(e, 1)
  {
  }

  lemma BuildLeaf(e: string)
    requires Flat(e) && |e| == 1
    ensures Build(e) == Leaf(e[0])
  {
  }

  /** When the operator at m is still applied last, o and x join its right
      operand. */
  lemma BuildAtRight(p: string, m: int, o: char, x: char)
    requires Flat(p + [o, x]) && Flat(p) && IsMain(p, m) && Tighter(p[m], o)
    ensures Flat(p[..m]) && Flat(p[m + 1..] + [o, x])
    ensures Build(p + [o, x]) == Node(p[m], Build(p[..m]), Build(p[m + 1..] + [o, x]))
  {
    var e := p + [o, x];
    assert IsOperator(e[|p|]);
    MainSnoc(p, m, o, x);
    BuildAt(e, m);
    FlatParts(p, m);
    assert e[..m] == p[..m];
    assert e[m + 1..] == p[m + 1..] + [o, x];
  }

  /** Grafting on the stack's terms: the operators popped are the part of
      the right edge below the graft, and they reach the listing before x. */
  lemma {:induction false} GraftEdge(t: Tree, o: char, x: char, kept: seq<char>, popped: seq<char>)
    requires RightEdge(t) == kept + popped
    requires forall k :: 0 <= k < |kept| ==> Tighter(kept[k], o)
    requires popped == [] || !Tighter(popped[0], o)
    ensures RightEdge(Graft(t, o, x)) == kept + [o]
    ensures Settled(Graft(t, o, x)) == Settled(t) + Reversed(popped) + [x]
  {
    if kept == [] {
      assert kept + popped == popped;
      GraftAtRoot(t, o, x);
    } else {
      EdgeTail(t, kept, popped);
      GraftEdge(t.right, o, x, kept[1..], popped);
      GraftDown(t.op, t.left, t.right, o, x, kept, popped);
    }
  }

  lemma EdgeTail(t: Tree, kept: seq<char>, popped: seq<char>)
    requires RightEdge(t) == kept + popped && kept != []
    ensures t.Node? && t.op == kept[0] && RightEdge(t.right) == kept[1..] + popped
  {
    assert RightEdge(t) == [t.op] + RightEdge(t.right);
    assert (kept + popped)[0] == kept[0] && (kept + popped)[1..] == kept[1..] + popped;
    assert ([t.op] + RightEdge(t.right))[1..] == RightEdge(t.right);
  }

  /** When the root is applied after o, o is grafted into its right
      operand. */
  lemma GraftDown(op: char, l: Tree, r: Tree, o: char, x: char, kept: seq<char>, popped: seq<char>)
    requires |kept| > 0 && op == kept[0] && Tighter(op, o)
    requires RightEdge(Graft(r, o, x)) == kept[1..] + [o]
    requires Settled(Graft(r, o, x)) == Settled(r) + Reversed(popped) + [x]
    ensures RightEdge(Graft(Node(op, l, r), o, x)) == kept + [o]
    ensures Settled(Graft(Node(op, l, r), o, x)) == Settled(Node(op, l, r)) + Reversed(popped) + [x]
  {
    var g := Graft(r, o, x);
    assert Graft(Node(op, l, r), o, x) == Node(op, l, g);
    assert RightEdge(Node(op, l, g)) == [op] + RightEdge(g);
    assert Settled(Node(op, l, g)) == PostOrder(l) + Settled(g);
    assert kept == [kept[0]] + kept[1..];
    AppendAssociates([op], kept[1..], [o]);
    AppendAssociates(PostOrder(l), Settled(r) + Reversed(popped), [x]);
    AppendAssociates(PostOrder(l), Settled(r), Reversed(popped));
  }

  /** When the root is not applied after o, o takes the whole tree as its
      left operand and all of the right edge is popped. */
  lemma GraftAtRoot(t: Tree, o: char, x: char)
    requires RightEdge(t) == [] || !Tighter(RightEdge(t)[0], o)
    ensures RightEdge(Graft(t, o, x)) == [o]
    ensures Settled(Graft(t, o, x)) == Settled(t) + Reversed(RightEdge(t)) + [x]
  {
    assert Graft(t, o, x) == Node(o, t, Leaf(x));
    PostOrderSplit(t);
  }

  // ------------------------------------------------------ conversion

  /** The stack only ever holds opening parentheses and operators. */
  ghost predicate StackChars(stack: seq<char>) {
    forall k :: 0 <= k < |stack| ==> stack[k] == '(' || IsOperator(stack[k])
  }

  function Reversed(s: seq<char>): seq<char> {
    if |s| == 0 then [] else Reversed(s[1..]) + [s[0]]
  }

  /** stack' is what is left of stack after popping its top entries one by
      one onto output, giving output'. */
  ghost predicate Popped(stack: seq<char>, output: seq<char>, stack': seq<char>, output': seq<char>) {
    |stack'| <= |stack| && stack' == stack[..|stack'|]
    && output' == output + Reversed(stack[|stack'|..])
  }

  /** Popping stack entries moves no operand, and output and stack together
      keep the same characters. */
  lemma {:induction false} PoppedKeeps(stack: seq<char>, output: seq<char>, n: int)
    requires 0 <= n <= |stack| && StackChars(stack)
    ensures multiset(output + Reversed(stack[n..])) + multiset(stack[..n]) == multiset(output) + multiset(stack)
    ensures Operands(output + Reversed(stack[n..])) == Operands(output)
    decreases |stack| - n
  {
    if n < |stack| {
      PoppedKeeps(stack, output, n + 1);
      PopNext(stack, output, n);
      var rest, c := output + Reversed(stack[n + 1..]), stack[n];
      calc {
        multiset(output + Reversed(stack[n..])) + multiset(stack[..n]);
        multiset(rest) + multiset{c} + multiset(stack[..n]);
        multiset(rest) + multiset(stack[..n + 1]);
      }
    } else {
      assert output + Reversed(stack[n..]) == output;
      assert stack[..n] == stack;
    }
  }

  lemma PopNext(stack: seq<char>, output: seq<char>, n: int)
    requires 0 <= n < |stack| && StackChars(stack)
    ensures var rest := output + Reversed(stack[n + 1..]);
      output + Reversed(stack[n..]) == rest + [stack[n]]
      && multiset(stack[..n + 1]) == multiset(stack[..n]) + multiset{stack[n]}
      && Operands(rest + [stack[n]]) == Operands(rest)
  {
    var rest := output + Reversed(stack[n + 1..]);
    assert stack[n..][1..] == stack[n + 1..];
    assert stack[..n + 1] == stack[..n] + [stack[n]];
    OperandsAppend(rest, stack[n]);
  }

  /** Popping one more entry, stack[n - 1], appends it to the output. */
  lemma PopOne(stack: seq<char>, output: seq<char>, out: seq<char>, n: int)
    requires 0 < n <= |stack| && out == output + Reversed(stack[n..])
    ensures out + [stack[n - 1]] == output + Reversed(stack[n - 1..])
  {
    assert stack[n - 1..][1..] == stack[n..];
    assert Reversed(stack[n - 1..]) == Reversed(stack[n..]) + [stack[n - 1]];
  }

  /** Popping operators onto the output: stack' is what is left of stack,
      only '(' and operators stay on it, output and stack together keep the
      same characters, every '(' stays on the stack and no operand moves. */
  ghost predicate PoppedOperators(stack: seq<char>, output: seq<char>, stack': seq<char>, output': seq<char>) {
    && Popped(stack, output, stack', output') && StackChars(stack')
    && multiset(output') + multiset(stack') == multiset(output) + multiset(stack)
    && multiset(stack')['('] == multiset(stack)['(']
    && Operands(output') == Operands(output)
  }

  /** What popping the operators above index n leaves behind. */
  lemma PoppedFacts(stack: seq<char>, output: seq<char>, n: int, stack': seq<char>, output': seq<char>)
    requires 0 <= n <= |stack| && StackChars(stack)
    requires forall k :: n <= k < |stack| ==> IsOperator(stack[k])
    requires stack' == stack[..n] && output' == output + Reversed(stack[n..])
    ensures PoppedOperators(stack, output, stack', output')
  {
    PoppedKeeps(stack, output, n);
    KeepsOpenings(stack, n);
  }

  /** Popping entries that are not '(' leaves the count of '(' alone. */
  lemma KeepsOpenings(stack: seq<char>, n: int)
    requires 0 <= n <= |stack|
    requires forall k :: n <= k < |stack| ==> stack[k] != '('
    ensures multiset(stack[..n])['('] == multiset(stack)['(']
  {
    assert stack == stack[..n] + stack[n..];
    assert '(' !in stack[n..];
  }

  /** Pops operators until an opening parenthesis is on top (page lines
      157-169). */
  method PopToParenthesis(stack: seq<char>, output: seq<char>) returns (stack': seq<char>, output': seq<char>)
    requires StackChars(stack)
    ensures PoppedOperators(stack, output, stack', output')
    ensures |stack'| == 0 || stack'[|stack'| - 1] == '('
    ensures forall k :: |stack'| <= k < |stack| ==> IsOperator(stack[k])
  {
    var n := |stack|;
    output' := output;
    while n > 0 && stack[n - 1] != '('
      invariant 0 <= n <= |stack| && output' == output + Reversed(stack[n..])
      invariant forall k :: n <= k < |stack| ==> IsOperator(stack[k])
    {
      PopOne(stack, output, output', n);
      output' := output' + [stack[n - 1]];
      n := n - 1;
    }
    stack' := stack[..n];
    assert n == 0 || stack'[n - 1] == stack[n - 1] == '(';
    PoppedFacts(stack, output, n, stack', output');
  }

  /** Whether the operator on top of the stack is popped before c is pushed:
      it binds more tightly, or as tightly and c is left-associative. */
  predicate PopsBefore(top: char, c: char) {
    top != '(' && IsOperator(top)
    && (Precedence(top) > Precedence(c) || (Precedence(top) == Precedence(c) && !IsRightAssociative(c)))
  }

  /** Pops every operator that must be applied before c (page lines
      186-206). */
  method PopBindingOperators(stack: seq<char>, output: seq<char>, c: char) returns (stack': seq<char>, output': seq<char>)
    requires StackChars(stack)
    ensures PoppedOperators(stack, output, stack', output')
    ensures |stack'| == 0 || !PopsBefore(stack'[|stack'| - 1], c)
    ensures forall k :: |stack'| <= k < |stack| ==> PopsBefore(stack[k], c)
  {
    var n := |stack|;
    output' := output;
    while n > 0 && PopsBefore(stack[n - 1], c)
      invariant 0 <= n <= |stack| && output' == output + Reversed(stack[n..])
      invariant forall k :: n <= k < |stack| ==> PopsBefore(stack[k], c)
    {
      PopOne(stack, output, output', n);
      output' := output' + [stack[n - 1]];
      n := n - 1;
    }
    stack' := stack[..n];
    assert n == 0 || stack'[n - 1] == stack[n - 1];
    PoppedFacts(stack, output, n, stack', output');
  }

  /** The facts the conversion keeps about its output and stack once it has
      read the characters seen: the stack holds only '(' and operators, the
      output holds no ')', the operands seen are in the output in their order,
      and while no ')' has been unmatched the stack holds one '(' per open
      parenthesis and output and stack hold exactly the operands and operators
      seen. */
  ghost predicate Converting(seen: string, stack: seq<char>, output: seq<char>) {
    StackChars(stack)
    && multiset(output)[')'] == 0
    && Operands(output) == Operands(seen)
    && (NeverNegative(seen) ==> Accounted(seen, stack, output))
  }

  ghost predicate Accounted(seen: string, stack: seq<char>, output: seq<char>) {
    multiset(stack)['('] == Depth(seen) && multiset(output)['('] == 0
    && multiset(output) + multiset(stack)['(' := 0] == multiset(Tokens(seen))
  }

  lemma NoClosing(stack: seq<char>)
    requires StackChars(stack)
    ensures multiset(stack)[')'] == 0
  {
  }

  lemma OperandStep(seen: string, c: char, stack: seq<char>, output: seq<char>)
    requires IsOperand(c) && Converting(seen, stack, output)
    ensures Converting(seen + [c], stack, output + [c])
  {
    DepthAppend(seen, c);
    OperandsAppend(seen, c);
    OperandsAppend(output, c);
    if NeverNegative(seen + [c]) {
      OperandAccounted(seen, c, stack, output);
    }
  }

  lemma OperandAccounted(seen: string, c: char, stack: seq<char>, output: seq<char>)
    requires IsOperand(c) && Accounted(seen, stack, output)
    ensures Accounted(seen + [c], stack, output + [c])
  {
    DepthAppend(seen, c);
    OperandsAppend(seen, c);
    assert multiset(output + [c]) == multiset(output) + multiset{c};
  }

  lemma OpenStep(seen: string, stack: seq<char>, output: seq<char>)
    requires Converting(seen, stack, output)
    ensures Converting(seen + ['('], stack + ['('], output)
  {
    DepthAppend(seen, '(');
    OperandsAppend(seen, '(');
    assert multiset(stack + ['('])['(' := 0] == multiset(stack)['(' := 0];
  }

  lemma OtherStep(seen: string, c: char, stack: seq<char>, output: seq<char>)
    requires !IsOperand(c) && !IsOperator(c) && c != '(' && c != ')'
    requires Converting(seen, stack, output)
    ensures Converting(seen + [c], stack, output)
  {
    DepthAppend(seen, c);
    OperandsAppend(seen, c);
  }

  /** The multiset side of dropping the matching '(': o and st are output
      and stack before the pops, o2 and st2 after them, rest is st2 without
      its top '('. */
  lemma DropOpening(o: multiset<char>, st: multiset<char>, o2: multiset<char>, st2: multiset<char>, rest: multiset<char>)
    requires o2 + st2 == o + st && st2['('] == st['('] && o['('] == 0
    requires st2 == rest + multiset{'('}
    ensures o2['('] == 0 && rest['('] == st['('] - 1
    ensures o2 + rest['(' := 0] == o + st['(' := 0]
  {
    var after, before, moved, kept := o2 + rest['(' := 0], o + st['(' := 0], o2 + st2, o + st;
    forall x
      ensures after[x] == before[x]
    {
      assert moved[x] == kept[x];
    }
    assert moved['('] == kept['('];
  }

  /** The multiset side of pushing the operator c after the pops. */
  lemma PushOperator(o: multiset<char>, st: multiset<char>, o2: multiset<char>, st2: multiset<char>, c: char)
    requires o2 + st2 == o + st && st2['('] == st['('] && o['('] == 0 && c != '('
    ensures o2['('] == 0 && (st2 + multiset{c})['('] == st['(']
    ensures o2 + (st2 + multiset{c})['(' := 0] == o + st['(' := 0] + multiset{c}
  {
    var after, before, moved, kept := o2 + (st2 + multiset{c})['(' := 0], o + st['(' := 0] + multiset{c}, o2 + st2, o + st;
    forall x
      ensures after[x] == before[x]
    {
      assert moved[x] == kept[x];
    }
    assert moved['('] == kept['('];
  }

  /** Pops keep the output free of ')'. */
  lemma PopsKeepShape(output: seq<char>, stack: seq<char>, output': seq<char>, stack': seq<char>)
    requires StackChars(stack) && StackChars(stack') && multiset(output)[')'] == 0
    requires multiset(output') + multiset(stack') == multiset(output) + multiset(stack)
    ensures multiset(output')[')'] == 0
  {
    NoClosing(stack);
    NoClosing(stack');
    assert (multiset(output') + multiset(stack'))[')'] == (multiset(output) + multiset(stack))[')'];
  }

  /** After the operators above the matching '(' have been popped to
      output', leaving rest + ['('], that '(' is dropped. */
  lemma CloseStep(seen: string, stack: seq<char>, output: seq<char>, rest: seq<char>, output': seq<char>)
    requires Converting(seen, stack, output) && StackChars(rest + ['('])
    requires multiset(output') + multiset(rest + ['(']) == multiset(output) + multiset(stack)
    requires multiset(rest + ['('])['('] == multiset(stack)['(']
    requires Operands(output') == Operands(output)
    ensures Converting(seen + [')'], rest, output')
  {
    DepthAppend(seen, ')');
    OperandsAppend(seen, ')');
    PopsKeepShape(output, stack, output', rest + ['(']);
    assert StackChars(rest) by {
      assert forall k :: 0 <= k < |rest| ==> rest[k] == (rest + ['('])[k];
    }
    if NeverNegative(seen + [')']) {
      DropOpening(multiset(output), multiset(stack), multiset(output'), multiset(rest + ['(']), multiset(rest));
    }
  }

  /** A ')' with no '(' left on the stack: the prefix now closes more
      parentheses than it opened. */
  lemma CloseUnmatched(seen: string, stack: seq<char>, output: seq<char>, output': seq<char>)
    requires Converting(seen, stack, output)
    requires multiset(output') == multiset(output) + multiset(stack)
    requires multiset(stack)['('] == 0
    requires Operands(output') == Operands(output)
    ensures Converting(seen + [')'], [], output')
  {
    DepthAppend(seen, ')');
    OperandsAppend(seen, ')');
    PopsKeepShape(output, stack, output', []);
  }

  /** After the operators that bind at least as tightly as c have been popped
      to output', c is pushed. */
  lemma OperatorStep(seen: string, c: char, stack: seq<char>, output: seq<char>, stack': seq<char>, output': seq<char>)
    requires IsOperator(c) && Converting(seen, stack, output)
    requires StackChars(stack')
    requires multiset(output') + multiset(stack') == multiset(output) + multiset(stack)
    requires multiset(stack')['('] == multiset(stack)['(']
    requires Operands(output') == Operands(output)
    ensures Converting(seen + [c], stack' + [c], output')
  {
    DepthAppend(seen, c);
    OperandsAppend(seen, c);
    PopsKeepShape(output, stack, output', stack');
    PushedOperator(stack', c);
    if NeverNegative(seen + [c]) {
      OperatorAccounted(seen, c, stack, output, stack', output');
    }
  }

  lemma PushedOperator(stack: seq<char>, c: char)
    requires StackChars(stack) && IsOperator(c)
    ensures StackChars(stack + [c]) && multiset(stack + [c]) == multiset(stack) + multiset{c}
  {
    assert forall k :: 0 <= k < |stack| ==> (stack + [c])[k] == stack[k];
  }

  lemma OperatorAccounted(seen: string, c: char, stack: seq<char>, output: seq<char>, stack': seq<char>, output': seq<char>)
    requires IsOperator(c) && Accounted(seen, stack, output)
    requires multiset(output') + multiset(stack') == multiset(output) + multiset(stack)
    requires multiset(stack')['('] == multiset(stack)['(']
    ensures Accounted(seen + [c], stack' + [c], output')
  {
    DepthAppend(seen, c);
    OperandsAppend(seen, c);
    assert multiset(stack' + [c]) == multiset(stack') + multiset{c};
    assert multiset(Tokens(seen + [c])) == multiset(Tokens(seen)) + multiset{c};
    PushOperator(multiset(output), multiset(stack), multiset(output'), multiset(stack'), c);
  }

  /** One character of the main loop (page lines 119-219). */
  method ConvertChar(seen: string, c: char, stack: seq<char>, output: seq<char>) returns (stack': seq<char>, output': seq<char>)
    requires Converting(seen, stack, output)
    ensures Converting(seen + [c], stack', output')
    ensures IsOperand(c) ==> stack' == stack && output' == output + [c]
    ensures IsOperator(c) ==> PushedAfterPops(stack, output, c, stack', output')
  {
    stack', output' := stack, output;
    if IsOperand(c) {
      OperandStep(seen, c, stack, output);
      output' := output + [c];
    } else if c == '(' {
      OpenStep(seen, stack, output);
      stack' := stack + ['('];
    } else if c == ')' {
      stack', output' := CloseParenthesis(seen, stack, output);
    } else if IsOperator(c) {
      stack', output' := ReadOperator(seen, c, stack, output);
    } else {
      OtherStep(seen, c, stack, output);
    }
  }

  /** An operator pops those that are applied before it, then is pushed
      (page lines 184-219). */
  method ReadOperator(seen: string, c: char, stack: seq<char>, output: seq<char>) returns (stack': seq<char>, output': seq<char>)
    requires IsOperator(c) && Converting(seen, stack, output)
    ensures Converting(seen + [c], stack', output')
    ensures PushedAfterPops(stack, output, c, stack', output')
  {
    stack', output' := PopBindingOperators(stack, output, c);
    OperatorStep(seen, c, stack, output, stack', output');
    Pushed(stack, output, c, stack', output');
    stack' := stack' + [c];
  }

  /** A ')' pops the operators above the nearest '(' to the output and then
      drops that '(' (none is left to drop when the parentheses do not
      balance). */
  method CloseParenthesis(seen: string, stack: seq<char>, output: seq<char>) returns (stack': seq<char>, output': seq<char>)
    requires Converting(seen, stack, output)
    ensures Converting(seen + [')'], stack', output')
  {
    stack', output' := PopToParenthesis(stack, output);
    if |stack'| > 0 {
      var rest := stack'[..|stack'| - 1];
      assert stack' == rest + ['('];
      CloseStep(seen, stack, output, rest, output');
      stack' := rest;
    } else {
      CloseUnmatched(seen, stack, output, output');
    }
  }

  /** The scan over an expression e without parentheses after e[..i]: the
      stack holds the right edge of the tree read so far and the output the
      rest of its listing; after an operator it is the tree the next operand
      completes, that operand not yet output. */
  ghost predicate Reading(e: string, i: int, stack: seq<char>, output: seq<char>)
    requires Flat(e) && 0 <= i <= |e|
  {
    if i % 2 == 1 then
      FlatPrefix(e, i);
      Complete(e[..i], stack, output)
    else
      FlatPrefix(e, i + 1);
      Awaiting(e[..i + 1], stack, output)
  }

  /** After the last operand of p: the stack holds the right edge of the
      tree of p, and the output the rest of its listing. */
  ghost predicate Complete(p: string, stack: seq<char>, output: seq<char>)
    requires Flat(p)
  {
    stack == RightEdge(Build(p)) && output == Settled(Build(p))
  }

  /** The same, with the last operand of p still to be output. */
  ghost predicate Awaiting(p: string, stack: seq<char>, output: seq<char>)
    requires Flat(p)
  {
    stack == RightEdge(Build(p)) && output + [p[|p| - 1]] == Settled(Build(p))
  }

  /** c has been pushed after every operator on top of the stack that is
      applied before it was popped to the output. */
  ghost predicate PushedAfterPops(stack: seq<char>, output: seq<char>, c: char, stack': seq<char>, output': seq<char>) {
    |stack'| > 0 && stack'[|stack'| - 1] == c
    && var kept := stack'[..|stack'| - 1];
    Popped(stack, output, kept, output')
    && (|kept| == 0 || !PopsBefore(kept[|kept| - 1], c))
    && forall k :: |kept| <= k < |stack| ==> PopsBefore(stack[k], c)
  }

  lemma Pushed(stack: seq<char>, output: seq<char>, c: char, kept: seq<char>, output': seq<char>)
    requires Popped(stack, output, kept, output')
    requires |kept| == 0 || !PopsBefore(kept[|kept| - 1], c)
    requires forall k :: |kept| <= k < |stack| ==> PopsBefore(stack[k], c)
    ensures PushedAfterPops(stack, output, c, kept + [c], output')
  {
    assert (kept + [c])[..|kept|] == kept;
  }

  /** One character of the scan keeps the stack and output in step with the
      tree of what has been read. */
  lemma ScanStep(e: string, i: int, stack: seq<char>, output: seq<char>, stack': seq<char>, output': seq<char>)
    requires Flat(e) && 0 <= i < |e| && Reading(e, i, stack, output)
    requires i % 2 == 0 ==> stack' == stack && output' == output + [e[i]]
    requires i % 2 == 1 ==> PushedAfterPops(stack, output, e[i], stack', output')
    ensures Reading(e, i + 1, stack', output')
  {
    if i % 2 == 0 {
      ScanOperand(e, i, stack, output);
    } else {
      ScanOperator(e, i, stack, output, stack', output');
    }
  }

  lemma ScanOperand(e: string, i: int, stack: seq<char>, output: seq<char>)
    requires Flat(e) && 0 <= i < |e| && i % 2 == 0 && Reading(e, i, stack, output)
    ensures Reading(e, i + 1, stack, output + [e[i]])
  {
    FlatPrefix(e, i + 1);
    assert Awaiting(e[..i + 1], stack, output);
    assert e[..i + 1][i] == e[i];
    assert Complete(e[..i + 1], stack, output + [e[i]]);
  }

  lemma ScanOperator(e: string, i: int, stack: seq<char>, output: seq<char>, stack': seq<char>, output': seq<char>)
    requires Flat(e) && 0 <= i < |e| && i % 2 == 1 && Reading(e, i, stack, output)
    requires PushedAfterPops(stack, output, e[i], stack', output')
    ensures Reading(e, i + 1, stack', output')
  {
    var p, o, x := e[..i], e[i], e[i + 1];
    FlatPrefix(e, i);
    assert Complete(p, stack, output);
    assert e[..i + 2] == p + [o, x];
    FlatPrefix(e, i + 2);
    OperatorRead(p, o, x, stack, output, stack', output');
    assert Awaiting(e[..i + 2], stack', output');
  }

  /** An operator o read after p, with x the operand that follows it: the
      pops and the push leave the stack and output of the tree of
      p + [o, x], x not yet output. */
  lemma OperatorRead(p: string, o: char, x: char, stack: seq<char>, output: seq<char>, stack': seq<char>, output': seq<char>)
    requires Flat(p + [o, x])
    requires Flat(p) && Complete(p, stack, output)
    requires PushedAfterPops(stack, output, o, stack', output')
    ensures Awaiting(p + [o, x], stack', output')
  {
    assert (p + [o, x])[|p| + 1] == x;
    BuildSnoc(p, o, x);
    var kept := stack'[..|stack'| - 1];
    var popped := stack[|kept|..];
    KeptTighter(p, o, stack, output, stack', output');
    GraftEdge(Build(p), o, x, kept, popped);
  }

  /** The operators left on the stack are applied after o, the first one
      popped is not. */
  lemma KeptTighter(p: string, o: char, stack: seq<char>, output: seq<char>, stack': seq<char>, output': seq<char>)
    requires Flat(p) && stack == RightEdge(Build(p))
    requires PushedAfterPops(stack, output, o, stack', output')
    ensures var kept := stack'[..|stack'| - 1];
      stack == kept + stack[|kept|..]
      && (forall k :: 0 <= k < |kept| ==> Tighter(kept[k], o))
      && (stack[|kept|..] == [] || !Tighter(stack[|kept|..][0], o))
  {
    EdgeChain(p);
    var kept := stack'[..|stack'| - 1];
    assert stack == kept + stack[|kept|..];
    if |kept| > 0 {
      assert IsOperator(stack[|kept| - 1]);
      TighterBelow(stack, |kept|, o);
    }
  }

  /** The postfix form of an expression (page lines 111-238). Operands keep
      their order and no ')' is ever output; for an expression with balanced
      parentheses the output is exactly its operands and operators, with no
      parentheses; for an expression without parentheses it is the postfix
      listing of its tree. */
  method ConvertInfix(infix: string) returns (output: seq<char>)
    ensures Operands(output) == Operands(RemoveWhitespace(infix))
    ensures ')' !in output
    ensures Balanced(RemoveWhitespace(infix)) ==>
      '(' !in output && multiset(output) == multiset(Tokens(RemoveWhitespace(infix)))
    ensures Flat(RemoveWhitespace(infix)) ==> output == PostOrder(Build(RemoveWhitespace(infix)))
  {
    var expression := RemoveWhitespace(infix);
    var remaining, converted := ScanExpression(expression);
    var stack;
    stack, output := FlushStack(remaining, converted);
    Finished(expression, remaining, converted, output);
    if Flat(expression) {
      PostOrderSplit(Build(expression));
    }
  }

  /** The main loop of page lines 118-219: every character of the
      expression in turn. */
  method ScanExpression(expression: string) returns (stack: seq<char>, output: seq<char>)
    ensures Converting(expression, stack, output)
    ensures Flat(expression) ==>
      stack == RightEdge(Build(expression)) && output == Settled(Build(expression))
  {
    stack, output := [], [];
    if Flat(expression) {
      ReadingStarts(expression);
    }
    for i := 0 to |expression|
      invariant Converting(expression[..i], stack, output)
      invariant Flat(expression) ==> Reading(expression, i, stack, output)
    {
      PrefixGrows(expression, i);
      var stack', output' := ConvertChar(expression[..i], expression[i], stack, output);
      if Flat(expression) {
        ScanStep(expression, i, stack, output, stack', output');
      }
      stack, output := stack', output';
    }
    assert expression[..|expression|] == expression;
    if Flat(expression) {
      ReadingEnds(expression, stack, output);
    }
  }

  lemma PrefixGrows(s: string, i: int)
    requires 0 <= i < |s|
    ensures s[..i + 1] == s[..i] + [s[i]]
  {
  }

  /** Before the first character the stack and output are empty. */
  lemma ReadingStarts(e: string)
    requires Flat(e)
    ensures Reading(e, 0, [], [])
  {
    FlatPrefix(e, 1);
    BuildLeaf(e[..1]);
  }

  /** After the last character the stack and output give the tree of e. */
  lemma ReadingEnds(e: string, stack: seq<char>, output: seq<char>)
    requires Flat(e) && Reading(e, |e|, stack, output)
    ensures stack == RightEdge(Build(e)) && output == Settled(Build(e))
  {
    assert e[..|e|] == e;
  }

  /** The final loop of page lines 221-225: every entry left on the stack is
      popped onto the output. */
  method FlushStack(stack: seq<char>, output: seq<char>) returns (stack': seq<char>, output': seq<char>)
    requires StackChars(stack)
    ensures stack' == [] && output' == output + Reversed(stack)
    ensures multiset(output') == multiset(output) + multiset(stack)
    ensures Operands(output') == Operands(output)
  {
    var n := |stack|;
    output' := output;
    while n > 0
      invariant 0 <= n <= |stack| && output' == output + Reversed(stack[n..])
    {
      assert stack[n - 1..][1..] == stack[n..];
      output' := output' + [stack[n - 1]];
      n := n - 1;
    }
    stack' := stack[..n];
    PoppedKeeps(stack, output, 0);
    assert stack[0..] == stack;
  }

  lemma Finished(e: string, stack: seq<char>, output: seq<char>, output': seq<char>)
    requires Converting(e, stack, output)
    requires multiset(output') == multiset(output) + multiset(stack)
    ensures ')' !in output'
    ensures Balanced(e) ==> '(' !in output' && multiset(output') == multiset(Tokens(e))
  {
    PopsKeepShape(output, stack, output', []);
    if Balanced(e) {
      assert multiset(stack)['(' := 0] == multiset(stack);
      assert multiset(output')['('] == multiset(output)['('] + multiset(stack)['('];
    }
  }

  /** The result shown on the screen: a rejection, or the postfix form. */
  datatype Outcome = Rejected(error: Error) | Converted(postfix: seq<char>)

  /** Validates, then converts (page lines 299-313). A rejection carries the
      first failed check; an accepted expression yields its operands and
      operators with no parentheses, the operands in their input order, and
      one without parentheses is accepted and yields its postfix listing. */
  method ProcessExpression(input: string) returns (r: Outcome)
    ensures Diagnose(RemoveWhitespace(input)).Invalid? <==> r.Rejected?
    ensures r.Rejected? ==> r.error == Diagnose(RemoveWhitespace(input)).error
    ensures r.Converted? ==>
      var e := RemoveWhitespace(input);
      '(' !in r.postfix && ')' !in r.postfix
      && multiset(r.postfix) == multiset(Tokens(e)) && |r.postfix| == |Tokens(e)|
      && Operands(r.postfix) == Operands(e)
    ensures Flat(RemoveWhitespace(input)) ==>
      r == Converted(PostOrder(Build(RemoveWhitespace(input))))
  {
    if Flat(RemoveWhitespace(input)) {
      FlatValid(RemoveWhitespace(input));
    }
    var validation := ValidateExpression(input);
    if validation.Invalid? {
      return Rejected(validation.error);
    }
    var postfix := ConvertInfix(input);
    calc {
      |postfix|;
      |multiset(postfix)|;
      |multiset(Tokens(RemoveWhitespace(input)))|;
      |Tokens(RemoveWhitespace(input))|;
    }
    r := Converted(postfix);
  }
}
