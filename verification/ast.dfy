/** The syntax tree the parser builds, before any simplification. */
module Ast {
  import opened Tokens

  /** `Absent` stands for the nil operand the logical-expression rule produces
      when the input has run out. `Operator` covers `not`, the null checks and
      the comparisons, and also the one-child node the comparison rule's
      prefix form builds around whatever non-literal token comes first (a
      marker or `and`/`or` included); `Logical` covers `and`/`or` and the
      implicit `and` of a sequence. */
  datatype Node =
    | Absent
    | Leaf(value: string)
    | Operator(op: Symbol, children: seq<Node>)
    | Logical(op: Symbol, children: seq<Node>)

  /** The shapes the grammar can build. A one-child operator node holds a leaf
      unless it is a negation; a two-child operator node is a comparison of two
      leaves; a logical node is either a sequence (`and`, any number of present
      children) or an explicit `and`/`or` whose right child may be absent. */
  predicate WellFormed(n: Node)
  {
    match n
    case Absent => false
    case Leaf(_) => true
    case Operator(op, cs) =>
      if |cs| == 1 then (if op == Not then WellFormed(cs[0]) else cs[0].Leaf?)
      else |cs| == 2 && op in ComparisonOperators && cs[0].Leaf? && cs[1].Leaf?
    case Logical(op, cs) =>
      || (op == DefaultSequenceOperator && forall c | c in cs :: WellFormed(c))
      || (op in LogicalInfixOperators && |cs| == 2 && WellFormed(cs[0])
          && (cs[1].Absent? || WellFormed(cs[1])))
  }

  /** Whether an absent operand occurs anywhere in `n`. */
  predicate HasAbsent(n: Node)
  {
    match n
    case Absent => true
    case Leaf(_) => false
    case Operator(_, cs) => exists c | c in cs :: HasAbsent(c)
    case Logical(_, cs) => exists c | c in cs :: HasAbsent(c)
  }

  /** An absent operand can only sit at the right edge of the tree: every
      child but the last is free of one, and the last child is again of this
      shape. */
  predicate AbsentLast(n: Node)
  {
    match n
    case Absent => true
    case Leaf(_) => true
    case Operator(_, cs) => AbsentLastAll(cs)
    case Logical(_, cs) => AbsentLastAll(cs)
  }

  /** The list form of `AbsentLast`: only the last node of `cs` may hold an
      absent operand, and only at its right edge. */
  predicate AbsentLastAll(cs: seq<Node>)
  {
    if cs == [] then true
    else if |cs| == 1 then AbsentLast(cs[0])
    else !HasAbsent(cs[0]) && AbsentLastAll(cs[1..])
  }

  /** The literal values of the tree, left to right. */
  function Leaves(n: Node): seq<string>
  {
    match n
    case Absent => []
    case Leaf(v) => [v]
    case Operator(_, cs) => LeavesAll(cs)
    case Logical(_, cs) => LeavesAll(cs)
  }

  function LeavesAll(cs: seq<Node>): seq<string>
  {
    if cs == [] then [] else Leaves(cs[0]) + LeavesAll(cs[1..])
  }

  /** A node with one child has that child's leaves, and an absent operand
      exactly when the child has one. */
  lemma OneChild(n: Node)
    requires (n.Operator? || n.Logical?) && |n.children| == 1
    ensures Leaves(n) == Leaves(n.children[0])
    ensures HasAbsent(n) <==> HasAbsent(n.children[0])
    ensures AbsentLast(n) <==> AbsentLast(n.children[0])
  {
    assert n.children[0] in n.children;
    assert n.children[1..] == [];
    assert LeavesAll(n.children) == Leaves(n.children[0]) + LeavesAll([]);
  }

  /** A node with two children has their leaves in order, and an absent
      operand exactly when one of them has one. */
  lemma TwoChildren(n: Node)
    requires (n.Operator? || n.Logical?) && |n.children| == 2
    ensures Leaves(n) == Leaves(n.children[0]) + Leaves(n.children[1])
    ensures HasAbsent(n) <==> HasAbsent(n.children[0]) || HasAbsent(n.children[1])
    ensures AbsentLast(n) <==> !HasAbsent(n.children[0]) && AbsentLast(n.children[1])
  {
    assert n.children[0] in n.children && n.children[1] in n.children;
    var cs := n.children;
    assert cs[1..][1..] == [];
    assert LeavesAll(cs[1..]) == Leaves(cs[1]) + LeavesAll([]);
    assert LeavesAll(cs) == Leaves(cs[0]) + LeavesAll(cs[1..]);
    assert AbsentLastAll(cs[1..]) == AbsentLast(cs[1]);
  }

  lemma LeavesAllCons(c: Node, cs: seq<Node>)
    ensures LeavesAll([c] + cs) == Leaves(c) + LeavesAll(cs)
  {
    assert ([c] + cs)[1..] == cs;
  }
}
