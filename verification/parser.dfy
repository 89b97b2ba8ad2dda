/** The recursive-descent parser of the query language
    (lib/scoped_search/query_language/parser.rb). The token list is read
    front to back through a cursor: every rule takes the tokens and the
    position of the first unread one, and yields either the node it built
    together with the position after the last token it consumed, or the one
    parse error, "value expected", carrying the token found instead (`None` at
    end of input). Reading only moves forward, so everything from the
    returned position on is exactly the unconsumed suffix. */
module Parser {
  import opened Wrappers
  import opened Tokens
  import opened Ast

  datatype Result<+T> = Success(value: T) | Failure(found: Option<Token>) {
    predicate IsFailure() { Failure? }

    function PropagateFailure<U>(): Result<U>
      requires Failure?
    {
      Failure(found)
    }

    function Extract(): T
      requires Success?
    {
      value
    }
  }

  /** A node together with the position of the first token after it. */
  datatype Parsed = Parsed(node: Node, next: nat)

  /** The expressions of a sequence together with the position after them. */
  datatype ParsedList = ParsedList(nodes: seq<Node>, next: nat)

  // ---------------------------------------------------------------------------
  // Token cursor

  /** One-token lookahead: "no token" past the end, never an error. */
  function Peek(ts: seq<Token>, pos: nat): (t: Option<Token>)
    requires pos <= |ts|
    ensures t.None? <==> pos == |ts|
    ensures t.Some? ==> t.value == ts[pos]
  {
    if pos == |ts| then None else Some(ts[pos])
  }

  /** Consumes the front token and returns it. On empty input it yields "no
      token" and the cursor stays where it is. */
  function Next(ts: seq<Token>, pos: nat): (r: (Option<Token>, nat))
    requires pos <= |ts|
    ensures r.0 == Peek(ts, pos)
    ensures pos <= r.1 <= |ts|
    ensures r.1 == pos + 1 <==> r.0.Some?
  {
    if pos == |ts| then (None, pos) else (Some(ts[pos]), pos + 1)
  }

  predicate PeekIs(ts: seq<Token>, pos: nat, s: Symbol)
    requires pos <= |ts|
  {
    Peek(ts, pos) == Some(Sym(s))
  }

  predicate PeekIn(ts: seq<Token>, pos: nat, ops: seq<Symbol>)
  {
    pos < |ts| && ts[pos].Sym? && ts[pos].symbol in ops
  }

  /** The position after one optional comma at `pos`. */
  function AfterComma(ts: seq<Token>, pos: nat): (s: nat)
    requires pos <= |ts|
    ensures s == pos || (s == pos + 1 && pos < |ts| && ts[pos] == Sym(Comma))
  {
    if PeekIs(ts, pos, Comma) then pos + 1 else pos
  }

  /** Consumes the next token when `enabled` holds and that token is the
      structural marker `marker`; otherwise consumes nothing. */
  function SkipMarker(ts: seq<Token>, pos: nat, marker: Symbol, enabled: bool): (next: nat)
    requires pos <= |ts|
    ensures pos <= next <= |ts| && LiteralsIn(ts, pos, next) == []
    ensures next == (if enabled && PeekIs(ts, pos, marker) then pos + 1 else pos)
  {
    if enabled && PeekIs(ts, pos, marker) then Next(ts, pos).1 else pos
  }

  // ---------------------------------------------------------------------------
  // Facts every rule keeps

  /** The rule read `ts[pos..next]`, and the literals among those tokens are
      exactly the leaves of its node, once each and in the order read. */
  predicate Consumed(ts: seq<Token>, pos: nat, r: Result<Parsed>)
  {
    r.Success? ==>
      && pos <= r.value.next <= |ts|
      && LiteralsIn(ts, pos, r.value.next) == Leaves(r.value.node)
  }

  /** A failure reports either the end of input or an operator symbol of the
      input. */
  predicate Reported<T>(ts: seq<Token>, r: Result<T>)
  {
    r.Failure? ==> r.found.None? || (r.found.value.Sym? && r.found.value in ts)
  }

  /** The input ends with `and`/`or`: the only place the grammar leaves an
      operand absent. */
  predicate EndsWithLogical(ts: seq<Token>)
  {
    0 < |ts| && PeekIn(ts, |ts| - 1, LogicalInfixOperators)
  }

  /** A comparison, a prefix comparison or a bare value. */
  predicate ComparisonShape(n: Node)
  {
    || n.Leaf?
    || (n.Operator? && |n.children| == 1 && n.children[0].Leaf?)
    || (n.Operator? && |n.children| == 2 && n.op in ComparisonOperators
        && n.children[0].Leaf? && n.children[1].Leaf?)
  }

  /** A comparison never holds an absent operand, and its leaves are its
      values in order. */
  lemma ComparisonFacts(n: Node)
    requires ComparisonShape(n)
    ensures WellFormed(n) && !HasAbsent(n) && AbsentLast(n)
    ensures Leaves(n) ==
      if n.Leaf? then [n.value]
      else if |n.children| == 1 then [n.children[0].value]
      else [n.children[0].value, n.children[1].value]
  {
    if n.Operator? && |n.children| == 1 {
      OneChild(n);
    } else if n.Operator? {
      TwoChildren(n);
    }
  }

  // ---------------------------------------------------------------------------
  // Entry point

  /** Parses a whole token sequence as the top-level sequence. Whatever
      follows an unmatched top-level `)` is left unread without error. */
  function Parse(ts: seq<Token>): (r: Result<Node>)
    ensures Reported(ts, r)
    ensures r.Success? ==>
      && r.value.Logical? && r.value.op == DefaultSequenceOperator
      && WellFormed(r.value)
      && forall c | c in r.value.children :: WellFormed(c)
    ensures r.Success? && Sym(RParen) !in ts ==> Leaves(r.value) == LiteralsIn(ts, 0, |ts|)
    ensures r.Success? && HasAbsent(r.value) ==> EndsWithLogical(ts)
    ensures r.Success? ==> AbsentLast(r.value)
  {
    var p :- ParseSequence(ts, 0, true);
    Success(p.node)
  }

  // ---------------------------------------------------------------------------
  // Grammar rules

  /** A parenthesised group (`initial` false) or the whole query (`initial`
      true): the implicit `and` of every logical expression up to the end of
      input or the first `)`. A group consumes its own `(` and, when there is
      one, its `)`; the top level consumes neither. */
  function ParseSequence(ts: seq<Token>, pos: nat, initial: bool): (r: Result<Parsed>)
    requires pos <= |ts|
    decreases |ts| - pos, if !initial && PeekIs(ts, pos, LParen) then 0 else 4
    ensures Consumed(ts, pos, r) && Reported(ts, r)
    ensures r.Success? ==>
      && r.value.node.Logical? && r.value.node.op == DefaultSequenceOperator
      && WellFormed(r.value.node)
      && forall c | c in r.value.node.children :: WellFormed(c)
    ensures r.Success? && initial ==> r.value.next == |ts| || ts[r.value.next] == Sym(RParen)
    ensures r.Success? && !initial ==>
      r.value.next == |ts| || (pos < r.value.next && ts[r.value.next - 1] == Sym(RParen))
    ensures r.Success? && !initial && PeekIs(ts, pos, LParen) ==> pos < r.value.next
    ensures r.Success? && HasAbsent(r.value.node) ==> r.value.next == |ts| && EndsWithLogical(ts)
    ensures r.Success? ==> AbsentLast(r.value.node)
  {
    var start := SkipMarker(ts, pos, LParen, !initial);
    var body :- ParseExpressions(ts, start);
    var next := SkipMarker(ts, body.next, RParen, !initial);
    var node := Logical(DefaultSequenceOperator, body.nodes);
    assert HasAbsent(node) ==> exists c | c in body.nodes :: HasAbsent(c);
    LiteralsSplit(ts, pos, start, body.next);
    LiteralsSplit(ts, pos, body.next, next);
    Success(Parsed(node, next))
  }

  /** The loop of the sequence rule: logical expressions, in encounter order,
      until the end of input or a `)`, which is left unconsumed. */
  function ParseExpressions(ts: seq<Token>, pos: nat): (r: Result<ParsedList>)
    requires pos <= |ts|
    decreases |ts| - pos, 3
    ensures Reported(ts, r)
    ensures r.Success? ==>
      && pos <= r.value.next <= |ts|
      && LiteralsIn(ts, pos, r.value.next) == LeavesAll(r.value.nodes)
    ensures r.Success? ==> forall c | c in r.value.nodes :: WellFormed(c)
    ensures r.Success? ==> r.value.next == |ts| || ts[r.value.next] == Sym(RParen)
    ensures r.Success? && (exists c | c in r.value.nodes :: HasAbsent(c)) ==>
      r.value.next == |ts| && EndsWithLogical(ts)
    ensures r.Success? ==> AbsentLastAll(r.value.nodes)
    ensures pos == |ts| ==> r == Success(ParsedList([], pos))
  {
    if pos == |ts| || PeekIs(ts, pos, RParen) then
      Success(ParsedList([], pos))
    else
      var first :- ParseLogical(ts, pos);
      var more :- ParseExpressions(ts, first.next);
      var nodes := [first.node] + more.nodes;
      assert forall c | c in nodes :: c == first.node || c in more.nodes;
      LeavesAllCons(first.node, more.nodes);
      LiteralsSplit(ts, pos, first.next, more.next);
      Success(ParsedList(nodes, more.next))
  }

  /** A left operand, then optionally `and`/`or` and a right operand parsed by
      this same rule, so that chains nest to the right and the two operators
      share one precedence level. The left operand itself is returned, not
      wrapped, when no `and`/`or` follows it. */
  function ParseLogical(ts: seq<Token>, pos: nat): (r: Result<Parsed>)
    requires pos <= |ts|
    decreases |ts| - pos, 2
    ensures Consumed(ts, pos, r) && Reported(ts, r)
    ensures pos == |ts| ==> r == Success(Parsed(Absent, pos))
    ensures r.Success? && pos < |ts| ==> pos < r.value.next && WellFormed(r.value.node)
    ensures r.Success? && HasAbsent(r.value.node) ==>
      r.value.next == |ts| && (pos < |ts| ==> EndsWithLogical(ts))
    ensures r.Success? ==> AbsentLast(r.value.node)
  {
    var lhs :- ParseOperand(ts, pos);
    if PeekIn(ts, lhs.next, LogicalInfixOperators) then
      var (op, after) := Next(ts, lhs.next);
      var rhs :- ParseLogical(ts, after);
      var node := Logical(op.value.symbol, [lhs.node, rhs.node]);
      TwoChildren(node);
      LiteralsSplit(ts, pos, lhs.next, after);
      LiteralsSplit(ts, pos, after, rhs.next);
      Success(Parsed(node, rhs.next))
    else
      Success(lhs)
  }

  /** The left operand of the logical-expression rule, chosen by the next
      token: absent at end of input, a group after `(`, a negation after
      `not`, a null check after `null`/`notnull`, otherwise a comparison. */
  function ParseOperand(ts: seq<Token>, pos: nat): (r: Result<Parsed>)
    requires pos <= |ts|
    decreases |ts| - pos, 1
    ensures Consumed(ts, pos, r) && Reported(ts, r)
    ensures pos == |ts| ==> r == Success(Parsed(Absent, pos))
    ensures r.Success? && pos < |ts| ==> pos < r.value.next && WellFormed(r.value.node)
    ensures r.Success? && HasAbsent(r.value.node) ==>
      r.value.next == |ts| && (pos < |ts| ==> EndsWithLogical(ts))
    ensures r.Success? ==> AbsentLast(r.value.node)
  {
    if pos == |ts| then Success(Parsed(Absent, pos))
    else if PeekIs(ts, pos, LParen) then ParseSequence(ts, pos, false)
    else if PeekIs(ts, pos, Not) then ParseNot(ts, pos)
    else if PeekIn(ts, pos, NullPrefixOperators) then ParseNull(ts, pos)
    else ParseComparison(ts, pos)
  }

  /** Skips the `not`, then negates another negation, a group or a
      comparison. A null check after `not` is read by the comparison rule's
      prefix form, with the same result as the null-check rule. */
  function ParseNot(ts: seq<Token>, pos: nat): (r: Result<Parsed>)
    requires pos <= |ts| && PeekIs(ts, pos, Not)
    decreases |ts| - pos, 0
    ensures Consumed(ts, pos, r) && Reported(ts, r)
    ensures r.Success? ==>
      && r.value.node.Operator? && r.value.node.op == Not && |r.value.node.children| == 1
      && WellFormed(r.value.node) && pos < r.value.next
    ensures r.Success? && HasAbsent(r.value.node) ==> r.value.next == |ts| && EndsWithLogical(ts)
    ensures r.Success? ==> AbsentLast(r.value.node)
  {
    var operandPos := Next(ts, pos).1;
    var negated :-
      if PeekIs(ts, operandPos, Not) then ParseNot(ts, operandPos)
      else if PeekIs(ts, operandPos, LParen) then ParseSequence(ts, operandPos, false)
      else ParseComparison(ts, operandPos);
    var node := Operator(Not, [negated.node]);
    OneChild(node);
    LiteralsSplit(ts, pos, operandPos, negated.next);
    Success(Parsed(node, negated.next))
  }

  /** `null`/`notnull` followed by the one value it checks. */
  function ParseNull(ts: seq<Token>, pos: nat): (r: Result<Parsed>)
    requires PeekIn(ts, pos, NullPrefixOperators)
    ensures Consumed(ts, pos, r) && Reported(ts, r)
    ensures r.Success? <==> pos + 1 < |ts| && ts[pos + 1].Lit?
    ensures r.Success? ==>
      && r.value == Parsed(Operator(ts[pos].symbol, [Leaf(ts[pos + 1].text)]), pos + 2)
      && r.value.node.op in NullPrefixOperators
      && !HasAbsent(r.value.node) && AbsentLast(r.value.node) && WellFormed(r.value.node)
    ensures r.Failure? ==> r.found == Peek(ts, pos + 1)
  {
    var r := ParsePrefixComparison(ts, pos);
    if r.Success? then ComparisonFacts(r.value.node); r else r
  }

  /** A leading comma is dropped once; then a literal starts an infix
      comparison and anything else is taken as a prefix operator. */
  function ParseComparison(ts: seq<Token>, pos: nat): (r: Result<Parsed>)
    requires pos <= |ts|
    ensures Consumed(ts, pos, r) && Reported(ts, r)
    ensures r.Success? ==>
      && ComparisonShape(r.value.node) && !HasAbsent(r.value.node) && AbsentLast(r.value.node)
      && pos < r.value.next
    ensures var s := AfterComma(ts, pos);
      s < |ts| && ts[s].Lit? ==> r == ParseInfixComparison(ts, s)
    ensures var s := AfterComma(ts, pos);
      !(s < |ts| && ts[s].Lit?) ==>
        && (r.Success? <==> s + 1 < |ts| && ts[s + 1].Lit?)
        && (r.Success? ==> r.value == Parsed(Operator(ts[s].symbol, [Leaf(ts[s + 1].text)]), s + 2))
        && (r.Failure? ==> r.found == (if s == |ts| then None else Peek(ts, s + 1)))
  {
    var from := SkipMarker(ts, pos, Comma, true);
    var r := if from < |ts| && ts[from].Lit? then ParseInfixComparison(ts, from) else ParsePrefixComparison(ts, from);
    if r.Success? then
      ComparisonFacts(r.value.node);
      LiteralsSplit(ts, pos, from, r.value.next);
      r
    else
      r
  }

  /** An operator symbol with one value after it and no value before it. */
  function ParsePrefixComparison(ts: seq<Token>, pos: nat): (r: Result<Parsed>)
    requires pos <= |ts| && (pos == |ts| || ts[pos].Sym?)
    ensures Consumed(ts, pos, r) && Reported(ts, r)
    ensures r.Success? <==> pos + 1 < |ts| && ts[pos + 1].Lit?
    ensures r.Success? ==> r.value == Parsed(Operator(ts[pos].symbol, [Leaf(ts[pos + 1].text)]), pos + 2)
    ensures r.Failure? ==> r.found == (if pos == |ts| then None else Peek(ts, pos + 1))
  {
    var (op, operandPos) := Next(ts, pos);
    var operand :- ParseValue(ts, operandPos);
    var node := Operator(op.value.symbol, [operand.node]);
    OneChild(node);
    LiteralsSplit(ts, pos, operandPos, operand.next);
    Success(Parsed(node, operand.next))
  }

  /** A value, then: before a comma, the value alone with the comma consumed;
      before a comparison operator, the two-value comparison; at end of input
      or before any other token, the value alone, the token left unread. */
  function ParseInfixComparison(ts: seq<Token>, pos: nat): (r: Result<Parsed>)
    requires pos <= |ts|
    ensures Consumed(ts, pos, r) && Reported(ts, r)
    ensures r.Success? ==> ComparisonShape(r.value.node) && pos < r.value.next
    ensures !(pos < |ts| && ts[pos].Lit?) ==> r == Failure(Peek(ts, pos))
    ensures pos < |ts| && ts[pos].Lit? && !PeekIn(ts, pos + 1, [Comma] + ComparisonOperators)
      ==> r == Success(Parsed(Leaf(ts[pos].text), pos + 1))
    ensures pos < |ts| && ts[pos].Lit? && PeekIn(ts, pos + 1, [Comma])
      ==> r == Success(Parsed(Leaf(ts[pos].text), pos + 2))
    ensures pos < |ts| && ts[pos].Lit? && PeekIn(ts, pos + 1, ComparisonOperators) ==>
      && (r.Success? <==> pos + 2 < |ts| && ts[pos + 2].Lit?)
      && (r.Success? ==>
            r.value == Parsed(Operator(ts[pos + 1].symbol, [Leaf(ts[pos].text), Leaf(ts[pos + 2].text)]), pos + 3))
      && (r.Failure? ==> r.found == Peek(ts, pos + 2))
  {
    var lhs :- ParseValue(ts, pos);
    if PeekIs(ts, lhs.next, Comma) then
      LiteralsSplit(ts, pos, lhs.next, lhs.next + 1);
      Success(Parsed(lhs.node, Next(ts, lhs.next).1))
    else if PeekIn(ts, lhs.next, ComparisonOperators) then
      var (op, after) := Next(ts, lhs.next);
      var rhs :- ParseValue(ts, after);
      var node := Operator(op.value.symbol, [lhs.node, rhs.node]);
      TwoChildren(node);
      LiteralsSplit(ts, pos, lhs.next, after);
      LiteralsSplit(ts, pos, after, rhs.next);
      Success(Parsed(node, rhs.next))
    else
      Success(lhs)
  }

  /** The only checked error of the grammar: a literal must come next, and
      it is consumed as a leaf. */
  function ParseValue(ts: seq<Token>, pos: nat): (r: Result<Parsed>)
    requires pos <= |ts|
    ensures Consumed(ts, pos, r) && Reported(ts, r)
    ensures r.Success? <==> pos < |ts| && ts[pos].Lit?
    ensures r.Success? ==> r.value == Parsed(Leaf(ts[pos].text), pos + 1)
    ensures r.Failure? ==> r.found == Peek(ts, pos)
  {
    if pos < |ts| && ts[pos].Lit? then
      var (t, next) := Next(ts, pos);
      Success(Parsed(Leaf(t.value.text), next))
    else
      Failure(Peek(ts, pos))
  }
}
