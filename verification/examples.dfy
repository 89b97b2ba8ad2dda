/** Small queries and the trees the parser builds for them, each derived
    from the general properties. The comment above each lemma shows the
    query as its tokens read; `a`, `b` and `c` stand for any literal values
    and `field` for any field name. */
module Examples {
  import opened Wrappers
  import opened Tokens
  import opened Ast
  import opened Parser
  import opened Properties

  /** `a` */
  lemma {:induction false} SingleValue(a: string)
    ensures Parse([Lit(a)]) == Success(Logical(And, [Leaf(a)]))
  {
    assert Joined([Leaf(a)], []) == [Lit(a)];
    QueryOfJoined([Leaf(a)], []);
  }

  /** `a b` */
  lemma {:induction false} ImplicitAnd(a: string, b: string)
    ensures Parse([Lit(a), Lit(b)]) == Success(Logical(And, [Leaf(a), Leaf(b)]))
  {
    assert [Leaf(a), Leaf(b)][1..] == [Leaf(b)];
    assert Joined([Leaf(a), Leaf(b)], []) == [Lit(a)] + [] + [Lit(b)] == [Lit(a), Lit(b)];
    QueryOfJoined([Leaf(a), Leaf(b)], []);
  }

  /** `a, b` */
  lemma {:induction false} CommaAnd(a: string, b: string)
    ensures Parse([Lit(a), Sym(Comma), Lit(b)]) == Success(Logical(And, [Leaf(a), Leaf(b)]))
  {
    assert [Leaf(a), Leaf(b)][1..] == [Leaf(b)];
    assert Joined([Leaf(a), Leaf(b)], [Sym(Comma)])
        == [Lit(a)] + [Sym(Comma)] + [Lit(b)]
        == [Lit(a), Sym(Comma), Lit(b)];
    QueryOfJoined([Leaf(a), Leaf(b)], [Sym(Comma)]);
  }

  /** `a and b or c`: the `or` takes `b or c` as a whole, so the `and`,
      which comes first, is the outer node. */
  lemma {:induction false} MixedChain(a: string, b: string, c: string)
    ensures Parse([Lit(a), Sym(And), Lit(b), Sym(Or), Lit(c)])
         == Success(Logical(And, [Logical(And, [Leaf(a), Logical(Or, [Leaf(b), Leaf(c)])])]))
  {
    var terms := [Leaf(a), Leaf(b), Leaf(c)];
    var ops := [And, Or];
    assert terms[1..] == [Leaf(b), Leaf(c)] && terms[1..][1..] == [Leaf(c)];
    assert ops[1..] == [Or] && ops[1..][1..] == [];
    assert AllTerms(terms[1..][1..]) && AllTerms(terms[1..]) && AllTerms(terms);
    assert AllLogical(ops[1..][1..]) && AllLogical(ops[1..]) && AllLogical(ops);
    assert ChainTokens(terms[1..][1..], ops[1..][1..]) == [Lit(c)];
    assert ChainTokens(terms[1..], ops[1..]) == [Lit(b), Sym(Or), Lit(c)];
    assert ChainTokens(terms, ops) == [Lit(a), Sym(And), Lit(b), Sym(Or), Lit(c)];
    assert RightChain(terms[1..], ops[1..]) == Logical(Or, [Leaf(b), Leaf(c)]);
    QueryOfChain(terms, ops);
  }

  /** `field > a` */
  lemma {:induction false} InfixComparison(field: string, a: string)
    ensures Parse([Lit(field), Sym(Gt), Lit(a)])
         == Success(Logical(And, [Operator(Gt, [Leaf(field), Leaf(a)])]))
  {
    var t := Operator(Gt, [Leaf(field), Leaf(a)]);
    assert Joined([t], []) == [Lit(field), Sym(Gt), Lit(a)];
    QueryOfJoined([t], []);
  }

  /** `not not a` */
  lemma {:induction false} DoubleNegation(a: string)
    ensures Parse([Sym(Not), Sym(Not), Lit(a)])
         == Success(Logical(And, [Operator(Not, [Operator(Not, [Leaf(a)])])]))
  {
    var ts := [Sym(Not), Sym(Not), Lit(a)];
    assert AfterComma(ts, 2) == 2;
    assert TermAt(ts, 2, Leaf(a));
    assert NotsAt(ts, 2, 0) && NotsAt(ts, 1, 1) && NotsAt(ts, 0, 2);
    NotChain(ts, 0, 2, Leaf(a));
    assert Nots(1, Leaf(a)) == Operator(Not, [Leaf(a)]);
    assert Nots(2, Leaf(a)) == Operator(Not, [Operator(Not, [Leaf(a)])]);
    LogicalStops(ts, 0, Nots(2, Leaf(a)), 3);
    QueryOfOne(ts, Nots(2, Leaf(a)), 3);
  }

  /** `null field` */
  lemma {:induction false} NullCheck(field: string)
    ensures Parse([Sym(Null), Lit(field)]) == Success(Logical(And, [Operator(Null, [Leaf(field)])]))
  {
    var ts := [Sym(Null), Lit(field)];
    assert ParseOperand(ts, 0) == ParseNull(ts, 0);
    LogicalStops(ts, 0, Operator(Null, [Leaf(field)]), 2);
    QueryOfOne(ts, Operator(Null, [Leaf(field)]), 2);
  }

  /** `a and`: the right operand of the trailing `and` is absent. */
  lemma {:induction false} TrailingAnd(a: string)
    ensures Parse([Lit(a), Sym(And)]) == Success(Logical(And, [Logical(And, [Leaf(a), Absent])]))
  {
    var ts := [Lit(a), Sym(And)];
    assert TermAt(ts, 0, Leaf(a));
    TrailingOperator(ts, 0, Leaf(a), And);
    QueryOfOne(ts, Logical(And, [Leaf(a), Absent]), 2);
  }

  /** `a ) b`: the unmatched `)` ends the query; `b` is never read. */
  lemma {:induction false} UnmatchedClose(a: string, b: string)
    ensures Parse([Lit(a), Sym(RParen), Lit(b)]) == Success(Logical(And, [Leaf(a)]))
  {
    var ts := [Lit(a), Sym(RParen), Lit(b)];
    assert AfterComma(ts, 0) == 0 && TermAt(ts, 0, Leaf(a));
    assert ListAt(ts, 0, [Leaf(a)], 1);
    QueryOfTerms(ts, [Leaf(a)], 1);
  }

  /** The group `(a b)` at the front of `(a b) c`. */
  lemma {:induction false} LeadingGroup(a: string, b: string, c: string)
    ensures ParseLogical([Sym(LParen), Lit(a), Lit(b), Sym(RParen), Lit(c)], 0)
         == Success(Parsed(Logical(And, [Leaf(a), Leaf(b)]), 4))
  {
    var ts := [Sym(LParen), Lit(a), Lit(b), Sym(RParen), Lit(c)];
    assert AfterComma(ts, 1) == 1 && TermAt(ts, 1, Leaf(a));
    assert AfterComma(ts, 2) == 2 && TermAt(ts, 2, Leaf(b));
    assert [Leaf(a), Leaf(b)][1..] == [Leaf(b)];
    assert ListAt(ts, 2, [Leaf(b)], 3);
    assert ListAt(ts, 1, [Leaf(a), Leaf(b)], 3);
    GroupOfTerms(ts, 0, [Leaf(a), Leaf(b)], 3);
    LogicalStops(ts, 0, Logical(And, [Leaf(a), Leaf(b)]), 4);
  }

  /** `(a b) c` */
  lemma {:induction false} GroupThenValue(a: string, b: string, c: string)
    ensures Parse([Sym(LParen), Lit(a), Lit(b), Sym(RParen), Lit(c)])
         == Success(Logical(And, [Logical(And, [Leaf(a), Leaf(b)]), Leaf(c)]))
  {
    var ts := [Sym(LParen), Lit(a), Lit(b), Sym(RParen), Lit(c)];
    LeadingGroup(a, b, c);
    assert AfterComma(ts, 4) == 4 && TermAt(ts, 4, Leaf(c));
    assert ListAt(ts, 4, [Leaf(c)], 5);
    ListParses(ts, 4, [Leaf(c)], 5);
    ExpressionsContinue(ts, 0, Logical(And, [Leaf(a), Leaf(b)]), 4, [Leaf(c)], 5);
    assert [Logical(And, [Leaf(a), Leaf(b)])] + [Leaf(c)] == [Logical(And, [Leaf(a), Leaf(b)]), Leaf(c)];
    QueryOfExpressions(ts, [Logical(And, [Leaf(a), Leaf(b)]), Leaf(c)], 5);
  }

  /** `(a or b)` at position `p` of any token sequence: the group holds the
      one expression `a or b`, which stops at the `)`. */
  lemma {:induction false} OrGroupAt(ts: seq<Token>, p: nat, a: string, b: string)
    requires p + 4 < |ts|
    requires ts[p] == Sym(LParen) && ts[p + 1] == Lit(a) && ts[p + 2] == Sym(Or)
    requires ts[p + 3] == Lit(b) && ts[p + 4] == Sym(RParen)
    ensures ParseOperand(ts, p) == Success(Parsed(Logical(And, [Logical(Or, [Leaf(a), Leaf(b)])]), p + 5))
  {
    var inner := Logical(Or, [Leaf(a), Leaf(b)]);
    assert [Leaf(a), Leaf(b)][1..] == [Leaf(b)] && [Or][1..] == [];
    assert ChainAt(ts, p + 3, [Leaf(b)], [], p + 4);
    assert ChainAt(ts, p + 1, [Leaf(a), Leaf(b)], [Or], p + 4);
    TermChainIsRightAssociative(ts, p + 1, [Leaf(a), Leaf(b)], [Or], p + 4);
    assert RightChain([Leaf(a), Leaf(b)], [Or]) == inner;
    OneBeforeParen(ts, p + 1, inner, p + 4);
    GroupOfOne(ts, p, inner, p + 4);
  }

  /** One expression read from `p` that stops at a `)` in position `q` is the
      whole list of expressions there. */
  lemma {:induction false} OneBeforeParen(ts: seq<Token>, p: nat, x: Node, q: nat)
    requires p < q < |ts| && ts[p] != Sym(RParen) && ts[q] == Sym(RParen)
    requires ParseLogical(ts, p) == Success(Parsed(x, q))
    ensures ParseExpressions(ts, p) == Success(ParsedList([x], q))
  {
    assert ParseExpressions(ts, q) == Success(ParsedList([], q));
    ExpressionsContinue(ts, p, x, q, [], q);
    assert [x] + [] == [x];
  }

  /** A group at `p` holding one expression that ends at a `)` in position
      `q` is the implicit `and` of that expression, ending after the `)`. */
  lemma {:induction false} GroupOfOne(ts: seq<Token>, p: nat, x: Node, q: nat)
    requires p < q < |ts| && ts[p] == Sym(LParen) && ts[q] == Sym(RParen)
    requires ParseExpressions(ts, p + 1) == Success(ParsedList([x], q))
    ensures ParseOperand(ts, p) == Success(Parsed(Logical(And, [x]), q + 1))
  {
    assert ListEnd(ts, q);
    GroupStep(ts, p, [x], q);
  }

  /** A value that is the last token is an expression of its own. */
  lemma {:induction false} ValueAtEnd(ts: seq<Token>, p: nat, c: string)
    requires p + 1 == |ts| && ts[p] == Lit(c)
    ensures ParseLogical(ts, p) == Success(Parsed(Leaf(c), p + 1))
  {
    assert AfterComma(ts, p) == p && TermAt(ts, p, Leaf(c));
    TermOperand(ts, p, Leaf(c));
    LogicalStops(ts, p, Leaf(c), p + 1);
  }

  /** `(a or b) and c`: a group is an operand like any other, so the `and`
      after it takes the group as its left side. */
  lemma {:induction false} GroupInChain(a: string, b: string, c: string)
    ensures Parse([Sym(LParen), Lit(a), Sym(Or), Lit(b), Sym(RParen), Sym(And), Lit(c)])
         == Success(Logical(And, [Logical(And, [Logical(And, [Logical(Or, [Leaf(a), Leaf(b)])]), Leaf(c)])]))
  {
    var ts := [Sym(LParen), Lit(a), Sym(Or), Lit(b), Sym(RParen), Sym(And), Lit(c)];
    var group := Logical(And, [Logical(Or, [Leaf(a), Leaf(b)])]);
    OrGroupAt(ts, 0, a, b);
    ValueAtEnd(ts, 6, c);
    LogicalContinues(ts, 0, group, 5, And, Leaf(c), 7);
    QueryOfOne(ts, Logical(And, [group, Leaf(c)]), 7);
  }

  /** `>` alone: the operator is taken as a prefix and its value is missing
      at the end of input. */
  lemma {:induction false} MissingValue()
    ensures Parse([Sym(Gt)]) == Failure(None)
  {
    var ts := [Sym(Gt)];
    assert ParseOperand(ts, 0) == ParseComparison(ts, 0) == ParsePrefixComparison(ts, 0);
    assert ParseLogical(ts, 0) == Failure(None);
  }

  /** `a ,`: a comma after a bare value is read with it. */
  lemma {:induction false} TrailingCommaAfterValue(a: string)
    ensures Parse([Lit(a), Sym(Comma)]) == Success(Logical(And, [Leaf(a)]))
  {
    var ts := [Lit(a), Sym(Comma)];
    assert AfterComma(ts, 0) == 0 && TermAt(ts, 0, Leaf(a));
    TermOperand(ts, 0, Leaf(a));
    LogicalStops(ts, 0, Leaf(a), 2);
    QueryOfOne(ts, Leaf(a), 2);
  }

  /** `a = b ,`: a comma after a comparison is left for the next expression,
      which then finds no value, so this query is an error. */
  lemma {:induction false} TrailingCommaAfterComparison(a: string, b: string)
    ensures Parse([Lit(a), Sym(Eq), Lit(b), Sym(Comma)]) == Failure(None)
  {
    var t := Operator(Eq, [Leaf(a), Leaf(b)]);
    var ts := [Lit(a), Sym(Eq), Lit(b), Sym(Comma)];
    assert AfterComma(ts, 0) == 0 && TermAt(ts, 0, t);
    TermOperand(ts, 0, t);
    LogicalStops(ts, 0, t, 3);
    assert ParseOperand(ts, 3) == ParseComparison(ts, 3) == Failure(None);
    assert ParseExpressions(ts, 3) == Failure(None);
    FailsAfterFirst(ts, t, 3);
  }

  /** When the expressions after the first one fail at the end of input, the
      whole query fails there. */
  lemma {:induction false} FailsAfterFirst(ts: seq<Token>, x: Node, n: nat)
    requires 0 < |ts| && ts[0] != Sym(RParen)
    requires ParseLogical(ts, 0) == Success(Parsed(x, n)) && ParseExpressions(ts, n) == Failure(None)
    ensures Parse(ts) == Failure(None)
  {
    assert ParseExpressions(ts, 0) == Failure(None);
    assert ParseSequence(ts, 0, true) == Failure(None);
  }
}
