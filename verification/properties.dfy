/** Properties of the query parser over whole families of inputs: the shape
    of `and`/`or` chains, of repeated negation, of juxtaposed and
    comma-separated terms, and of parenthesised groups. The main lemmas
    compare the parse with an independent description of the expected tree
    (`RightChain`, `Nots`, `ListAt`, `Joined`); the rest are helpers that
    take one step of a rule at a time. */
module Properties {
  import opened Wrappers
  import opened Tokens
  import opened Ast
  import opened Parser

  // ---------------------------------------------------------------------------
  // Terms: a bare value or a two-value comparison

  predicate IsTerm(n: Node)
  {
    || n.Leaf?
    || (n.Operator? && |n.children| == 2 && n.op in ComparisonOperators
        && n.children[0].Leaf? && n.children[1].Leaf?)
  }

  /** Every node of `ns` is a term. */
  predicate AllTerms(ns: seq<Node>)
    decreases ns
  {
    ns == [] || (IsTerm(ns[0]) && AllTerms(ns[1..]))
  }

  /** Every symbol of `ops` is `and` or `or`. */
  predicate AllLogical(ops: seq<Symbol>)
    decreases ops
  {
    ops == [] || (ops[0] in LogicalInfixOperators && AllLogical(ops[1..]))
  }

  /** The number of tokens a term is written with. */
  function Width(n: Node): nat
  {
    if n.Leaf? then 1 else 3
  }

  /** The tokens a term is written with: `v`, or `field op value`. */
  function Render(n: Node): (ts: seq<Token>)
    requires IsTerm(n)
    ensures |ts| == Width(n) && ts[0].Lit?
  {
    if n.Leaf? then [Lit(n.value)]
    else [Lit(n.children[0].value), Sym(n.op), Lit(n.children[1].value)]
  }

  /** The term `n` is written in `ts` from position `p` on, token by token. */
  predicate TermAt(ts: seq<Token>, p: nat, n: Node)
  {
    if n.Leaf? then p < |ts| && ts[p] == Lit(n.value)
    else
      && IsTerm(n) && p + 2 < |ts|
      && ts[p] == Lit(n.children[0].value)
      && ts[p + 1] == Sym(n.op)
      && ts[p + 2] == Lit(n.children[1].value)
  }

  /** `piece` occurs in `ts` starting at position `p`. */
  predicate At(ts: seq<Token>, p: nat, piece: seq<Token>)
    decreases piece
  {
    if piece == [] then p <= |ts|
    else p < |ts| && ts[p] == piece[0] && At(ts, p + 1, piece[1..])
  }

  lemma {:induction false} AtBounds(ts: seq<Token>, p: nat, piece: seq<Token>)
    requires At(ts, p, piece)
    ensures p + |piece| <= |ts|
    ensures forall i | 0 <= i < |piece| :: ts[p + i] == piece[i]
    decreases piece
  {
    if piece != [] {
      AtBounds(ts, p + 1, piece[1..]);
      forall i | 1 <= i < |piece|
        ensures ts[p + i] == piece[i]
      {
        assert ts[p + 1 + (i - 1)] == piece[1..][i - 1];
      }
    }
  }

  /** Every suffix of a token sequence lies at its own position. */
  lemma {:induction false} AtSuffix(ts: seq<Token>, p: nat)
    requires p <= |ts|
    ensures At(ts, p, ts[p..])
    decreases |ts| - p
  {
    if p < |ts| {
      AtSuffix(ts, p + 1);
      assert ts[p..][1..] == ts[p + 1..];
    }
  }

  /** A window splits into consecutive windows. */
  lemma {:induction false} AtSplit(ts: seq<Token>, p: nat, a: seq<Token>, b: seq<Token>)
    requires At(ts, p, a + b)
    ensures At(ts, p, a) && At(ts, p + |a|, b)
    decreases a
  {
    if a != [] {
      assert (a + b)[1..] == a[1..] + b;
      AtSplit(ts, p + 1, a[1..], b);
    } else {
      assert a + b == b;
    }
  }

  /** A term's tokens found at `p` are the term written at `p`. */
  lemma {:induction false} RenderAt(ts: seq<Token>, p: nat, n: Node)
    requires IsTerm(n) && At(ts, p, Render(n))
    ensures TermAt(ts, p, n)
  {
    AtBounds(ts, p, Render(n));
    assert ts[p] == ts[p + 0] == Render(n)[0];
    if !n.Leaf? {
      assert ts[p + 1] == Render(n)[1];
      assert ts[p + 2] == Render(n)[2];
    }
  }

  /** Where the rule reading a term written up to `q` stops: a bare value
      also swallows one comma after it. */
  function TermEnd(ts: seq<Token>, q: nat, n: Node): (e: nat)
    ensures e == q || (e == q + 1 && n.Leaf? && q < |ts| && ts[q] == Sym(Comma))
  {
    if n.Leaf? && PeekIn(ts, q, [Comma]) then q + 1 else q
  }

  /** Position `p` does not hold a token that could extend a term: a comma or
      a comparison operator. */
  predicate EndsTerm(ts: seq<Token>, p: nat)
  {
    !PeekIn(ts, p, [Comma] + ComparisonOperators)
  }

  /** A term written at `p` starts with a literal, so no comma is skipped
      there. */
  lemma {:induction false} TermStartsAtLiteral(ts: seq<Token>, p: nat, n: Node)
    requires TermAt(ts, p, n)
    ensures p < |ts| && ts[p].Lit? && AfterComma(ts, p) == p
  {
  }

  /** A literal or a comma is read by the comparison rule. */
  lemma {:induction false} OperandIsComparison(ts: seq<Token>, p: nat)
    requires p < |ts| && (ts[p].Lit? || ts[p] == Sym(Comma))
    ensures ParseOperand(ts, p) == ParseComparison(ts, p)
  {
    assert !PeekIs(ts, p, LParen) && !PeekIs(ts, p, Not) && !PeekIn(ts, p, NullPrefixOperators);
  }

  /** The comparison rule drops one leading comma and reads an infix
      comparison when a literal comes next. */
  lemma {:induction false} ComparisonIsInfix(ts: seq<Token>, p: nat)
    requires p <= |ts| && AfterComma(ts, p) < |ts| && ts[AfterComma(ts, p)].Lit?
    ensures ParseComparison(ts, p) == ParseInfixComparison(ts, AfterComma(ts, p))
  {
  }

  /** An infix comparison reads a whole term at `s`. */
  lemma {:induction false} InfixTerm(ts: seq<Token>, s: nat, n: Node)
    requires TermAt(ts, s, n)
    requires n.Leaf? ==> !PeekIn(ts, s + 1, ComparisonOperators)
    ensures s < |ts| && ts[s].Lit?
    ensures ParseInfixComparison(ts, s) == Success(Parsed(n, TermEnd(ts, s + Width(n), n)))
  {
    if !n.Leaf? {
      assert n == Operator(n.op, [Leaf(n.children[0].value), Leaf(n.children[1].value)]);
    }
  }

  /** A term, optionally after one comma, is read back as itself. A bare
      value must not be followed by a comparison operator, which would make it
      the left side of a comparison; a comma after a bare value is consumed
      with it. */
  lemma {:induction false} TermOperand(ts: seq<Token>, p: nat, n: Node)
    requires p <= |ts| && TermAt(ts, AfterComma(ts, p), n)
    requires n.Leaf? ==> !PeekIn(ts, AfterComma(ts, p) + 1, ComparisonOperators)
    ensures p < |ts|
    ensures ParseComparison(ts, p)
         == Success(Parsed(n, TermEnd(ts, AfterComma(ts, p) + Width(n), n)))
    ensures ParseOperand(ts, p) == ParseComparison(ts, p)
  {
    InfixTerm(ts, AfterComma(ts, p), n);
    ComparisonIsInfix(ts, p);
    OperandIsComparison(ts, p);
  }

  /** A term at `p`, followed by a token that cannot extend it, is read back
      as itself, consuming exactly its own tokens. */
  lemma {:induction false} TermParses(ts: seq<Token>, p: nat, n: Node)
    requires TermAt(ts, p, n) && EndsTerm(ts, p + Width(n))
    ensures ParseOperand(ts, p) == Success(Parsed(n, p + Width(n)))
  {
    TermStartsAtLiteral(ts, p, n);
    TermOperand(ts, p, n);
  }

  // ---------------------------------------------------------------------------
  // Right-associative `and`/`or` chains

  /** After its left operand, the logical-expression rule consumes an infix
      `and`/`or` and takes a whole logical expression as the right operand. */
  lemma {:induction false} LogicalContinues(ts: seq<Token>, p: nat, lhs: Node, q: nat, op: Symbol, rhs: Node, e: nat)
    requires p < |ts| && ParseOperand(ts, p) == Success(Parsed(lhs, q))
    requires q < |ts| && ts[q] == Sym(op) && op in LogicalInfixOperators
    requires ParseLogical(ts, q + 1) == Success(Parsed(rhs, e))
    ensures ParseLogical(ts, p) == Success(Parsed(Logical(op, [lhs, rhs]), e))
  {
    LogicalJoins(ts, p, lhs, q, op);
  }

  /** `lhs op` in front of the result of the right operand. */
  function Join(lhs: Node, op: Symbol, r: Result<Parsed>): Result<Parsed>
  {
    match r
    case Success(rhs) => Success(Parsed(Logical(op, [lhs, rhs.node]), rhs.next))
    case Failure(found) => Failure(found)
  }

  lemma {:induction false} LogicalJoins(ts: seq<Token>, p: nat, lhs: Node, q: nat, op: Symbol)
    requires p < |ts| && ParseOperand(ts, p) == Success(Parsed(lhs, q))
    requires q < |ts| && ts[q] == Sym(op) && op in LogicalInfixOperators
    ensures ParseLogical(ts, p) == Join(lhs, op, ParseLogical(ts, q + 1))
  {
    assert PeekIn(ts, q, LogicalInfixOperators);
    assert Next(ts, q) == (Some(Sym(op)), q + 1);
  }

  /** Without an infix `and`/`or` after it, the left operand is the result,
      unwrapped. */
  lemma {:induction false} LogicalStops(ts: seq<Token>, p: nat, lhs: Node, q: nat)
    requires p <= |ts| && ParseOperand(ts, p) == Success(Parsed(lhs, q))
    requires !PeekIn(ts, q, LogicalInfixOperators)
    ensures ParseLogical(ts, p) == Success(Parsed(lhs, q))
  {
  }

  /** `t0 op0 t1 op1 ... tn`. */
  function ChainTokens(terms: seq<Node>, ops: seq<Symbol>): seq<Token>
    requires |terms| == |ops| + 1 && AllTerms(terms)
    decreases ops
  {
    if ops == [] then Render(terms[0])
    else Render(terms[0]) + [Sym(ops[0])] + ChainTokens(terms[1..], ops[1..])
  }

  /** The expected tree of a chain: every operator takes the term on its left
      and everything to its right. */
  function RightChain(terms: seq<Node>, ops: seq<Symbol>): Node
    requires |terms| == |ops| + 1
    decreases ops
  {
    if ops == [] then terms[0]
    else Logical(ops[0], [terms[0], RightChain(terms[1..], ops[1..])])
  }

  /** The tokens from `p` up to `e` are the chain `t0 op0 t1 op1 ... tn`,
      stated term by term. */
  predicate ChainAt(ts: seq<Token>, p: nat, terms: seq<Node>, ops: seq<Symbol>, e: nat)
    requires |terms| == |ops| + 1
    decreases ops
  {
    && TermAt(ts, p, terms[0])
    && var q := p + Width(terms[0]);
       if ops == [] then e == q
       else
         && q < |ts| && ts[q] == Sym(ops[0]) && ops[0] in LogicalInfixOperators
         && ChainAt(ts, q + 1, terms[1..], ops[1..], e)
  }

  /** The first term, the first operator and the rest of a chain written out
      with `ChainTokens`. */
  lemma {:induction false} ChainTokensFront(ts: seq<Token>, p: nat, terms: seq<Node>, ops: seq<Symbol>)
    requires |terms| == |ops| + 1 && AllTerms(terms) && ops != []
    requires At(ts, p, ChainTokens(terms, ops))
    ensures AllTerms(terms[1..]) && TermAt(ts, p, terms[0])
    ensures p + Width(terms[0]) < |ts| && ts[p + Width(terms[0])] == Sym(ops[0])
    ensures At(ts, p + Width(terms[0]) + 1, ChainTokens(terms[1..], ops[1..]))
    ensures |ChainTokens(terms, ops)| == Width(terms[0]) + 1 + |ChainTokens(terms[1..], ops[1..])|
  {
    var r := Render(terms[0]);
    var rest := ChainTokens(terms[1..], ops[1..]);
    assert ChainTokens(terms, ops) == r + [Sym(ops[0])] + rest;
    AtSplit(ts, p, r + [Sym(ops[0])], rest);
    AtSplit(ts, p, r, [Sym(ops[0])]);
    RenderAt(ts, p, terms[0]);
  }

  /** A chain written out with `ChainTokens` lies at its position. */
  lemma {:induction false} ChainTokensAt(ts: seq<Token>, p: nat, terms: seq<Node>, ops: seq<Symbol>, e: nat)
    requires |terms| == |ops| + 1 && AllTerms(terms) && AllLogical(ops)
    requires At(ts, p, ChainTokens(terms, ops)) && e == p + |ChainTokens(terms, ops)|
    ensures ChainAt(ts, p, terms, ops, e)
    decreases ops, 1
  {
    if ops == [] {
      ChainTokensOne(ts, p, terms, ops, e);
    } else {
      ChainTokensFront(ts, p, terms, ops);
      ChainTokensTail(ts, p, terms, ops, p + Width(terms[0]), e);
    }
  }

  /** A chain of one term lies at its position. */
  lemma {:induction false} ChainTokensOne(ts: seq<Token>, p: nat, terms: seq<Node>, ops: seq<Symbol>, e: nat)
    requires |terms| == 1 && ops == [] && AllTerms(terms)
    requires At(ts, p, ChainTokens(terms, ops)) && e == p + |ChainTokens(terms, ops)|
    ensures ChainAt(ts, p, terms, ops, e)
  {
    assert ChainTokens(terms, ops) == Render(terms[0]);
    RenderAt(ts, p, terms[0]);
  }

  /** A term, an operator and a chain written out with `ChainTokens` lie at
      their positions. */
  lemma {:induction false} ChainTokensTail(ts: seq<Token>, p: nat, terms: seq<Node>, ops: seq<Symbol>, q: nat, e: nat)
    requires |terms| == |ops| + 1 && ops != [] && AllTerms(terms[1..]) && AllLogical(ops)
    requires TermAt(ts, p, terms[0]) && q == p + Width(terms[0])
    requires q < |ts| && ts[q] == Sym(ops[0])
    requires At(ts, q + 1, ChainTokens(terms[1..], ops[1..]))
    requires e == q + 1 + |ChainTokens(terms[1..], ops[1..])|
    ensures ChainAt(ts, p, terms, ops, e)
    decreases ops, 0
  {
    assert ops[0] in LogicalInfixOperators && AllLogical(ops[1..]);
    ChainTokensAt(ts, q + 1, terms[1..], ops[1..], e);
  }

  /** Position `p` cannot continue a chain: it holds neither a comma, nor a
      comparison operator, nor `and`/`or`. */
  predicate EndsChain(ts: seq<Token>, p: nat)
  {
    EndsTerm(ts, p) && !PeekIn(ts, p, LogicalInfixOperators)
  }

  /** Where operand `i` of a chain starts: at `p` for the first, and just
      after the operator that follows the previous operand otherwise. */
  function OperandStart(p: nat, ends: seq<nat>, i: nat): nat
    requires i <= |ends|
  {
    if i == 0 then p else ends[i - 1] + 1
  }

  /** The operand rule reads `x` from `s` and stops at `n`. */
  predicate OperandAt(ts: seq<Token>, s: nat, x: Node, n: nat)
  {
    s <= n <= |ts| && ParseOperand(ts, s) == Success(Parsed(x, n))
  }

  /** The tokens from `p` up to `e` are the operands `xs`, each as the
      operand rule reads it (a term, a group, a negation, a null check, or the
      absent operand at the end of input) and ending at the matching entry of
      `ends`, separated by the `and`/`or` symbols `ops`, with no `and`/`or`
      after the last operand. */
  predicate OperandChainAt(ts: seq<Token>, p: nat, xs: seq<Node>, ops: seq<Symbol>, ends: seq<nat>, e: nat)
  {
    && |xs| == |ops| + 1 && |ends| == |xs| && p <= |ts|
    && (forall i {:trigger OperandStart(p, ends, i)} | 0 <= i < |xs| ::
          OperandAt(ts, OperandStart(p, ends, i), xs[i], ends[i]))
    && (forall i | 0 <= i < |ops| ::
          ends[i] < |ts| && ts[ends[i]] == Sym(ops[i]) && ops[i] in LogicalInfixOperators)
    && e == ends[|ops|] && e <= |ts| && !PeekIn(ts, e, LogicalInfixOperators)
  }

  /** `x0 op0 x1 op1 ... xn` nests to the right with no precedence between
      `and` and `or`, whatever the operands are, and the parse stops exactly
      after the last operand. */
  lemma {:induction false} ChainIsRightAssociative(ts: seq<Token>, p: nat, xs: seq<Node>, ops: seq<Symbol>, ends: seq<nat>, e: nat)
    requires OperandChainAt(ts, p, xs, ops, ends, e)
    ensures ParseLogical(ts, p) == Success(Parsed(RightChain(xs, ops), e))
  {
    ChainFrom(ts, p, xs, ops, ends, e, 0);
    assert OperandStart(p, ends, 0) == p && xs[0..] == xs && ops[0..] == ops;
  }

  /** The chain read from its `k`-th operand on is the right-nested tree of
      the operands and operators from `k` on. */
  lemma {:induction false} ChainFrom(ts: seq<Token>, p: nat, xs: seq<Node>, ops: seq<Symbol>, ends: seq<nat>, e: nat, k: nat)
    requires OperandChainAt(ts, p, xs, ops, ends, e) && k < |xs|
    ensures OperandStart(p, ends, k) <= |ts|
    ensures ParseLogical(ts, OperandStart(p, ends, k)) == Success(Parsed(RightChain(xs[k..], ops[k..]), e))
    decreases |xs| - k
  {
    if k == |ops| {
      ChainLastOperand(ts, p, xs, ops, ends, e, k);
    } else {
      ChainFrom(ts, p, xs, ops, ends, e, k + 1);
      ChainStepOperand(ts, p, xs, ops, ends, e, k);
      assert OperandStart(p, ends, k + 1) == ends[k] + 1;
      RightChainStep(xs, ops, k);
    }
  }

  /** The last operand of a chain is read alone. */
  lemma {:induction false} ChainLastOperand(ts: seq<Token>, p: nat, xs: seq<Node>, ops: seq<Symbol>, ends: seq<nat>, e: nat, k: nat)
    requires OperandChainAt(ts, p, xs, ops, ends, e) && k == |ops|
    ensures OperandStart(p, ends, k) <= |ts|
    ensures ParseLogical(ts, OperandStart(p, ends, k)) == Success(Parsed(RightChain(xs[k..], ops[k..]), e))
  {
    var s := OperandStart(p, ends, k);
    assert OperandAt(ts, s, xs[k], ends[k]);
    assert xs[k..] == [xs[k]] && ops[k..] == [];
    LogicalStops(ts, s, xs[k], e);
  }

  /** Operand `k` and its operator in front of whatever is read after them
      take it as their right operand. */
  lemma {:induction false} ChainStepOperand(ts: seq<Token>, p: nat, xs: seq<Node>, ops: seq<Symbol>, ends: seq<nat>, e: nat, k: nat)
    requires OperandChainAt(ts, p, xs, ops, ends, e) && k < |ops|
    ensures OperandStart(p, ends, k) <= ends[k] < |ts|
    ensures ParseLogical(ts, OperandStart(p, ends, k)) == Join(xs[k], ops[k], ParseLogical(ts, ends[k] + 1))
  {
    var s := OperandStart(p, ends, k);
    assert OperandAt(ts, s, xs[k], ends[k]);
    assert ends[k] < |ts| && ts[ends[k]] == Sym(ops[k]) && ops[k] in LogicalInfixOperators;
    LogicalJoins(ts, s, xs[k], ends[k], ops[k]);
  }

  /** The right-nested tree from position `k` on, one level unfolded. */
  lemma {:induction false} RightChainStep(xs: seq<Node>, ops: seq<Symbol>, k: nat)
    requires |xs| == |ops| + 1 && k < |ops|
    ensures RightChain(xs[k..], ops[k..]) == Logical(ops[k], [xs[k], RightChain(xs[k + 1..], ops[k + 1..])])
  {
    assert xs[k..][1..] == xs[k + 1..] && ops[k..][1..] == ops[k + 1..];
  }

  /** One operand with no `and`/`or` after it is a chain. */
  lemma {:induction false} OperandChainOne(ts: seq<Token>, p: nat, x: Node, n: nat)
    requires OperandAt(ts, p, x, n) && !PeekIn(ts, n, LogicalInfixOperators)
    ensures OperandChainAt(ts, p, [x], [], [n], n)
  {
    assert OperandStart(p, [n], 0) == p;
  }

  /** An operand and an operator in front of a chain make a longer chain. */
  lemma {:induction false} OperandChainCons(ts: seq<Token>, p: nat, xs: seq<Node>, ops: seq<Symbol>, ends: seq<nat>, e: nat)
    requires |xs| == |ops| + 1 && |ends| == |xs| && ops != []
    requires OperandAt(ts, p, xs[0], ends[0])
    requires ends[0] < |ts| && ts[ends[0]] == Sym(ops[0]) && ops[0] in LogicalInfixOperators
    requires OperandChainAt(ts, ends[0] + 1, xs[1..], ops[1..], ends[1..], e)
    ensures OperandChainAt(ts, p, xs, ops, ends, e)
  {
    forall i | 0 <= i < |xs|
      ensures OperandAt(ts, OperandStart(p, ends, i), xs[i], ends[i])
    {
      if 0 < i {
        assert OperandStart(p, ends, i) == OperandStart(ends[0] + 1, ends[1..], i - 1);
        assert xs[i] == xs[1..][i - 1] && ends[i] == ends[1..][i - 1];
      }
    }
    forall i | 0 <= i < |ops|
      ensures ends[i] < |ts| && ts[ends[i]] == Sym(ops[i]) && ops[i] in LogicalInfixOperators
    {
      if 0 < i {
        assert ends[i] == ends[1..][i - 1] && ops[i] == ops[1..][i - 1];
      }
    }
    assert ends[|ops|] == ends[1..][|ops[1..]|];
  }

  /** The positions where the terms of a chain end. */
  function TermEnds(p: nat, terms: seq<Node>): (ends: seq<nat>)
    ensures |ends| == |terms|
    decreases terms
  {
    if terms == [] then []
    else [p + Width(terms[0])] + TermEnds(p + Width(terms[0]) + 1, terms[1..])
  }

  /** A chain of terms, followed by a token that cannot continue it, is a
      chain of operands. */
  lemma {:induction false} TermChainOperands(ts: seq<Token>, p: nat, terms: seq<Node>, ops: seq<Symbol>, e: nat)
    requires |terms| == |ops| + 1 && ChainAt(ts, p, terms, ops, e) && EndsChain(ts, e)
    ensures OperandChainAt(ts, p, terms, ops, TermEnds(p, terms), e)
    decreases ops
  {
    var q := p + Width(terms[0]);
    var ends := TermEnds(p, terms);
    assert ends[0] == q && ends[1..] == TermEnds(q + 1, terms[1..]);
    if ops == [] {
      TermParses(ts, p, terms[0]);
      assert terms == [terms[0]] && ends == [q];
      OperandChainOne(ts, p, terms[0], q);
    } else {
      LogicalEndsTerm(ts, q, ops[0]);
      TermParses(ts, p, terms[0]);
      TermChainOperands(ts, q + 1, terms[1..], ops[1..], e);
      OperandChainCons(ts, p, terms, ops, ends, e);
    }
  }

  /** `a and b or c ...` over terms nests to the right and stops exactly at
      the end of the chain. */
  lemma {:induction false} TermChainIsRightAssociative(ts: seq<Token>, p: nat, terms: seq<Node>, ops: seq<Symbol>, e: nat)
    requires |terms| == |ops| + 1 && ChainAt(ts, p, terms, ops, e) && EndsChain(ts, e)
    ensures ParseLogical(ts, p) == Success(Parsed(RightChain(terms, ops), e))
  {
    TermChainOperands(ts, p, terms, ops, e);
    ChainIsRightAssociative(ts, p, terms, ops, TermEnds(p, terms), e);
  }

  /** An `and`/`or` cannot extend a term. */
  lemma {:induction false} LogicalEndsTerm(ts: seq<Token>, q: nat, op: Symbol)
    requires q < |ts| && ts[q] == Sym(op) && op in LogicalInfixOperators
    ensures EndsTerm(ts, q)
  {
    assert op !in [Comma] + ComparisonOperators;
  }

  /** A whole query that is one chain is that chain under the implicit
      `and`. */
  lemma {:induction false} QueryOfChain(terms: seq<Node>, ops: seq<Symbol>)
    requires |terms| == |ops| + 1 && AllTerms(terms) && AllLogical(ops)
    ensures Parse(ChainTokens(terms, ops))
         == Success(Logical(DefaultSequenceOperator, [RightChain(terms, ops)]))
  {
    var ts := ChainTokens(terms, ops);
    AtSuffix(ts, 0);
    assert ts[0..] == ts;
    ChainTokensAt(ts, 0, terms, ops, |ts|);
    TermChainIsRightAssociative(ts, 0, terms, ops, |ts|);
    TermStartsAtLiteral(ts, 0, terms[0]);
    QueryOfOne(ts, RightChain(terms, ops), |ts|);
  }

  /** A logical expression made of a term and a trailing `and`/`or` with
      nothing after it has an absent right operand. */
  lemma {:induction false} TrailingOperator(ts: seq<Token>, p: nat, n: Node, op: Symbol)
    requires TermAt(ts, p, n) && op in LogicalInfixOperators
    requires p + Width(n) + 1 == |ts| && ts[|ts| - 1] == Sym(op)
    ensures ParseLogical(ts, p) == Success(Parsed(Logical(op, [n, Absent]), |ts|))
  {
    var q := p + Width(n);
    LogicalEndsTerm(ts, q, op);
    TermParses(ts, p, n);
    assert ParseLogical(ts, q + 1) == Success(Parsed(Absent, |ts|));
    LogicalContinues(ts, p, n, q, op, Absent, |ts|);
  }

  // ---------------------------------------------------------------------------
  // Negation

  /** `k` negations of `n`. */
  function Nots(k: nat, n: Node): Node
  {
    if k == 0 then n else Operator(Not, [Nots(k - 1, n)])
  }

  /** `not` followed by something negates exactly what the operand rule
      would read there (a null check included), and `not` at the end of input
      is an error reporting the end of input. */
  lemma {:induction false} NotNegatesOperand(ts: seq<Token>, p: nat)
    requires p < |ts| && ts[p] == Sym(Not)
    ensures p + 1 == |ts| ==> ParseNot(ts, p) == Failure(None)
    ensures p + 1 < |ts| ==>
      ParseNot(ts, p) ==
        match ParseOperand(ts, p + 1)
        case Success(x) => Success(Parsed(Operator(Not, [x.node]), x.next))
        case Failure(found) => Failure(found)
  {
    if p + 1 < |ts| && ts[p + 1].Sym? && ts[p + 1].symbol in NullPrefixOperators {
      assert ParseNull(ts, p + 1) == ParsePrefixComparison(ts, p + 1) == ParseComparison(ts, p + 1);
    }
  }

  /** A `not` is read by the negation rule. */
  lemma {:induction false} OperandIsNot(ts: seq<Token>, p: nat)
    requires p < |ts| && ts[p] == Sym(Not)
    ensures ParseOperand(ts, p) == ParseNot(ts, p)
  {
  }

  /** One `not` in front of an operand wraps it. */
  lemma {:induction false} NotStep(ts: seq<Token>, p: nat, x: Node, e: nat)
    requires p + 1 < |ts| && ts[p] == Sym(Not)
    requires ParseOperand(ts, p + 1) == Success(Parsed(x, e))
    ensures ParseOperand(ts, p) == Success(Parsed(Operator(Not, [x]), e))
  {
    NotNegatesOperand(ts, p);
    OperandIsNot(ts, p);
  }

  /** `k` consecutive `not` tokens start at `p`. */
  predicate NotsAt(ts: seq<Token>, p: nat, k: nat)
    decreases k
  {
    k == 0 || (p < |ts| && ts[p] == Sym(Not) && NotsAt(ts, p + 1, k - 1))
  }

  /** A run of `k` negations before a term nests `k` operator nodes `not`
      around it. */
  lemma {:induction false} NotChain(ts: seq<Token>, p: nat, k: nat, n: Node)
    requires NotsAt(ts, p, k)
    requires p + k <= |ts| && TermAt(ts, AfterComma(ts, p + k), n)
    requires n.Leaf? ==> !PeekIn(ts, AfterComma(ts, p + k) + 1, ComparisonOperators)
    ensures p + k < |ts|
    ensures ParseOperand(ts, p)
         == Success(Parsed(Nots(k, n), TermEnd(ts, AfterComma(ts, p + k) + Width(n), n)))
    decreases k
  {
    if k == 0 {
      TermOperand(ts, p, n);
    } else {
      var e := TermEnd(ts, AfterComma(ts, p + k) + Width(n), n);
      assert p + 1 + (k - 1) == p + k;
      NotChain(ts, p + 1, k - 1, n);
      NotStep(ts, p, Nots(k - 1, n), e);
    }
  }

  // ---------------------------------------------------------------------------
  // Sequences of terms

  /** The tokens from `p` up to `e` are the terms `terms`, one after the
      other, each optionally preceded by one comma. */
  predicate ListAt(ts: seq<Token>, p: nat, terms: seq<Node>, e: nat)
    decreases terms
  {
    if terms == [] then e == p
    else
      && p < |ts|
      && var s := AfterComma(ts, p);
         && TermAt(ts, s, terms[0])
         && ListAt(ts, s + Width(terms[0]), terms[1..], e)
  }

  /** Position `e` ends a sequence: the end of input or a `)`. */
  predicate ListEnd(ts: seq<Token>, e: nat)
  {
    e <= |ts| && (e == |ts| || PeekIs(ts, e, RParen))
  }

  /** What a list of terms begins with. */
  lemma {:induction false} ListFront(ts: seq<Token>, q: nat, terms: seq<Node>, e: nat)
    requires ListAt(ts, q, terms, e) && ListEnd(ts, e)
    ensures terms == [] ==> q == e
    ensures terms != [] ==>
      && q < |ts|
      && (ts[q].Lit? || (ts[q] == Sym(Comma) && q + 1 < |ts| && ts[q + 1].Lit?))
    ensures terms != [] && ts[q] == Sym(Comma) ==> ListAt(ts, q + 1, terms, e)
  {
    if terms != [] && ts[q] == Sym(Comma) {
      assert AfterComma(ts, q + 1) == q + 1;
    }
  }

  /** The first term of a list is followed by a comma, a literal, a `)` or
      the end of input; where the term's reading stops, the rest begins. */
  lemma {:induction false} ListHeadTokens(ts: seq<Token>, p: nat, terms: seq<Node>, e: nat)
    requires terms != [] && ListAt(ts, p, terms, e) && ListEnd(ts, e)
    ensures
      var s := AfterComma(ts, p);
      var n := TermEnd(ts, s + Width(terms[0]), terms[0]);
      && TermAt(ts, s, terms[0])
      && (terms[0].Leaf? ==> !PeekIn(ts, s + 1, ComparisonOperators))
      && !PeekIn(ts, n, LogicalInfixOperators)
      && ListAt(ts, n, terms[1..], e)
  {
    var s := AfterComma(ts, p);
    var q := s + Width(terms[0]);
    ListFront(ts, q, terms[1..], e);
    var n := TermEnd(ts, q, terms[0]);
    if n == q + 1 {
      ListFront(ts, q + 1, terms[1..], e);
    }
  }

  /** The first term of a list is read by the logical-expression rule, which
      stops where the rest of the list begins. */
  lemma {:induction false} ListHead(ts: seq<Token>, p: nat, terms: seq<Node>, e: nat)
    requires terms != [] && ListAt(ts, p, terms, e) && ListEnd(ts, e)
    ensures
      var n := TermEnd(ts, AfterComma(ts, p) + Width(terms[0]), terms[0]);
      && ParseLogical(ts, p) == Success(Parsed(terms[0], n))
      && ListAt(ts, n, terms[1..], e)
  {
    ListHeadTokens(ts, p, terms, e);
    TermLogical(ts, p, terms[0]);
  }

  /** A term after an optional comma, with no `and`/`or` where its reading
      stops, is a whole logical expression. */
  lemma {:induction false} TermLogical(ts: seq<Token>, p: nat, n: Node)
    requires p <= |ts| && TermAt(ts, AfterComma(ts, p), n)
    requires n.Leaf? ==> !PeekIn(ts, AfterComma(ts, p) + 1, ComparisonOperators)
    requires !PeekIn(ts, TermEnd(ts, AfterComma(ts, p) + Width(n), n), LogicalInfixOperators)
    ensures ParseLogical(ts, p) == Success(Parsed(n, TermEnd(ts, AfterComma(ts, p) + Width(n), n)))
  {
    TermOperand(ts, p, n);
    LogicalStops(ts, p, n, TermEnd(ts, AfterComma(ts, p) + Width(n), n));
  }

  /** One round of the sequence loop: an expression, then the rest. */
  lemma {:induction false} ExpressionsContinue(ts: seq<Token>, p: nat, x: Node, n: nat, xs: seq<Node>, e: nat)
    requires p < |ts| && !PeekIs(ts, p, RParen)
    requires ParseLogical(ts, p) == Success(Parsed(x, n))
    requires ParseExpressions(ts, n) == Success(ParsedList(xs, e))
    ensures ParseExpressions(ts, p) == Success(ParsedList([x] + xs, e))
  {
  }

  /** Terms written one after another, with or without commas between them,
      are read as separate expressions, in order, up to the end of input or
      the first `)`. A comma is a separator only: it never shows in the
      tree. */
  lemma {:induction false} ListParses(ts: seq<Token>, p: nat, terms: seq<Node>, e: nat)
    requires ListAt(ts, p, terms, e) && ListEnd(ts, e)
    ensures ParseExpressions(ts, p) == Success(ParsedList(terms, e))
    decreases terms
  {
    ListFront(ts, p, terms, e);
    if terms != [] {
      ListHead(ts, p, terms, e);
      var n := TermEnd(ts, AfterComma(ts, p) + Width(terms[0]), terms[0]);
      ListParses(ts, n, terms[1..], e);
      ExpressionsContinue(ts, p, terms[0], n, terms[1..], e);
      assert [terms[0]] + terms[1..] == terms;
    }
  }

  /** Terms written one after another, separated by `sep`. */
  function Joined(terms: seq<Node>, sep: seq<Token>): seq<Token>
    requires AllTerms(terms)
    decreases terms
  {
    if terms == [] then []
    else if |terms| == 1 then Render(terms[0])
    else Render(terms[0]) + sep + Joined(terms[1..], sep)
  }

  /** A list may spell out the comma in front of a term. */
  lemma {:induction false} ListCommaFront(ts: seq<Token>, q: nat, terms: seq<Node>, e: nat)
    requires terms != [] && q + 1 < |ts| && ts[q] == Sym(Comma) && ts[q + 1].Lit?
    requires ListAt(ts, q + 1, terms, e)
    ensures ListAt(ts, q, terms, e)
  {
    assert AfterComma(ts, q) == q + 1 == AfterComma(ts, q + 1);
  }

  /** The first term, the separator and the rest of a joined list of at least
      two terms. */
  lemma {:induction false} JoinedFront(ts: seq<Token>, p: nat, terms: seq<Node>, sep: seq<Token>)
    requires AllTerms(terms) && |terms| >= 2 && (sep == [] || sep == [Sym(Comma)])
    requires At(ts, p, Joined(terms, sep))
    ensures AllTerms(terms[1..]) && TermAt(ts, p, terms[0])
    ensures At(ts, p + Width(terms[0]) + |sep|, Joined(terms[1..], sep))
    ensures sep != [] ==> p + Width(terms[0]) < |ts| && ts[p + Width(terms[0])] == Sym(Comma)
    ensures |Joined(terms, sep)| == Width(terms[0]) + |sep| + |Joined(terms[1..], sep)|
  {
    var r := Render(terms[0]);
    AtSplit(ts, p, r + sep, Joined(terms[1..], sep));
    AtSplit(ts, p, r, sep);
    RenderAt(ts, p, terms[0]);
    if sep != [] {
      AtBounds(ts, p + |r|, sep);
      assert ts[p + |r|] == ts[p + |r| + 0] == sep[0];
    }
  }

  /** A joined list starts with a literal: the first token of its first
      term. */
  lemma {:induction false} JoinedHead(ts: seq<Token>, p: nat, terms: seq<Node>, sep: seq<Token>)
    requires AllTerms(terms) && terms != []
    requires At(ts, p, Joined(terms, sep))
    ensures p < |ts| && ts[p].Lit?
  {
    var j := Joined(terms, sep);
    assert j[0] == Render(terms[0])[0] by {
      if |terms| > 1 {
        assert j == Render(terms[0]) + (sep + Joined(terms[1..], sep));
      }
    }
    assert p < |ts| && ts[p] == j[0];
  }

  /** A term written at `p`, then a list, is a list. */
  lemma {:induction false} ListStep(ts: seq<Token>, p: nat, terms: seq<Node>, q: nat, e: nat)
    requires terms != [] && TermAt(ts, p, terms[0]) && q == p + Width(terms[0])
    requires ListAt(ts, q, terms[1..], e)
    ensures ListAt(ts, p, terms, e)
  {
    assert AfterComma(ts, p) == p;
  }

  /** Terms joined with no separator or with commas form a list, ending
      where the joined tokens end. */
  lemma {:induction false} JoinedAt(ts: seq<Token>, p: nat, terms: seq<Node>, sep: seq<Token>, e: nat)
    requires AllTerms(terms) && (sep == [] || sep == [Sym(Comma)])
    requires At(ts, p, Joined(terms, sep)) && e == p + |Joined(terms, sep)|
    ensures ListAt(ts, p, terms, e)
    decreases terms, 2
  {
    if |terms| == 1 {
      assert terms[1..] == [];
      RenderAt(ts, p, terms[0]);
      ListStep(ts, p, terms, p + Width(terms[0]), e);
    } else if |terms| >= 2 {
      JoinedMore(ts, p, terms, sep, e);
    }
  }

  /** The step of `JoinedAt` for two terms or more. */
  lemma {:induction false} JoinedMore(ts: seq<Token>, p: nat, terms: seq<Node>, sep: seq<Token>, e: nat)
    requires AllTerms(terms) && |terms| >= 2 && (sep == [] || sep == [Sym(Comma)])
    requires At(ts, p, Joined(terms, sep)) && e == p + |Joined(terms, sep)|
    ensures ListAt(ts, p, terms, e)
    decreases terms, 1
  {
    JoinedFront(ts, p, terms, sep);
    JoinedTail(ts, p, terms, sep, p + Width(terms[0]), e);
  }

  /** A term, the separator and a joined rest form a list. */
  lemma {:induction false} JoinedTail(ts: seq<Token>, p: nat, terms: seq<Node>, sep: seq<Token>, q: nat, e: nat)
    requires |terms| >= 2 && AllTerms(terms[1..]) && (sep == [] || sep == [Sym(Comma)])
    requires TermAt(ts, p, terms[0]) && q == p + Width(terms[0])
    requires sep != [] ==> q < |ts| && ts[q] == Sym(Comma)
    requires At(ts, q + |sep|, Joined(terms[1..], sep))
    requires e == q + |sep| + |Joined(terms[1..], sep)|
    ensures ListAt(ts, p, terms, e)
    decreases terms, 0
  {
    JoinedAt(ts, q + |sep|, terms[1..], sep, e);
    JoinedHead(ts, q + |sep|, terms[1..], sep);
    JoinedLink(ts, p, terms, |sep|, q, e);
  }

  /** A term, no separator or one comma, and a list starting with a literal
      form a list. */
  lemma {:induction false} JoinedLink(ts: seq<Token>, p: nat, terms: seq<Node>, k: nat, q: nat, e: nat)
    requires |terms| >= 2 && TermAt(ts, p, terms[0]) && q == p + Width(terms[0])
    requires k == 0 || (k == 1 && q < |ts| && ts[q] == Sym(Comma))
    requires q + k < |ts| && ts[q + k].Lit?
    requires ListAt(ts, q + k, terms[1..], e)
    ensures ListAt(ts, p, terms, e)
  {
    if k == 1 {
      ListCommaFront(ts, q, terms[1..], e);
    }
    ListStep(ts, p, terms, q, e);
  }

  /** A whole query of terms is their implicit `and`, in order. The top
      level stops at the first `)` without consuming it, so an unmatched `)`
      silently ends the query and nothing after it is read. */
  lemma {:induction false} QueryOfTerms(ts: seq<Token>, terms: seq<Node>, e: nat)
    requires ListAt(ts, 0, terms, e) && ListEnd(ts, e)
    ensures ParseSequence(ts, 0, true) == Success(Parsed(Logical(DefaultSequenceOperator, terms), e))
    ensures Parse(ts) == Success(Logical(DefaultSequenceOperator, terms))
  {
    ListParses(ts, 0, terms, e);
  }

  /** The operand rule reads a group through the sequence rule, which
      closes it after its body. */
  lemma {:induction false} GroupStep(ts: seq<Token>, p: nat, xs: seq<Node>, e: nat)
    requires p < |ts| && ts[p] == Sym(LParen)
    requires ParseExpressions(ts, p + 1) == Success(ParsedList(xs, e)) && ListEnd(ts, e)
    ensures ParseOperand(ts, p)
         == Success(Parsed(Logical(DefaultSequenceOperator, xs), if e == |ts| then e else e + 1))
  {
    assert SkipMarker(ts, p, LParen, true) == p + 1;
    assert SkipMarker(ts, e, RParen, true) == if e == |ts| then e else e + 1;
    assert ParseSequence(ts, p, false)
        == Success(Parsed(Logical(DefaultSequenceOperator, xs), if e == |ts| then e else e + 1));
  }

  /** A parenthesised group of terms is their implicit `and`. The group
      consumes its `(` and its `)`; a group left open at the end of input is
      accepted. */
  lemma {:induction false} GroupOfTerms(ts: seq<Token>, p: nat, terms: seq<Node>, e: nat)
    requires p < |ts| && ts[p] == Sym(LParen)
    requires ListAt(ts, p + 1, terms, e) && ListEnd(ts, e)
    ensures ParseOperand(ts, p)
         == Success(Parsed(Logical(DefaultSequenceOperator, terms), if e == |ts| then e else e + 1))
  {
    ListParses(ts, p + 1, terms, e);
    GroupStep(ts, p, terms, e);
  }

  /** The top level wraps the expressions of its loop in the implicit
      `and`. */
  lemma {:induction false} QueryOfExpressions(ts: seq<Token>, xs: seq<Node>, e: nat)
    requires ParseExpressions(ts, 0) == Success(ParsedList(xs, e))
    ensures Parse(ts) == Success(Logical(DefaultSequenceOperator, xs))
  {
    assert ParseSequence(ts, 0, true) == Success(Parsed(Logical(DefaultSequenceOperator, xs), e));
  }

  /** A query that is one logical expression, ending at the end of input or
      at a `)`, is that expression under the implicit `and`. */
  lemma {:induction false} QueryOfOne(ts: seq<Token>, x: Node, e: nat)
    requires 0 < |ts| && !PeekIs(ts, 0, RParen)
    requires ParseLogical(ts, 0) == Success(Parsed(x, e)) && ListEnd(ts, e)
    ensures Parse(ts) == Success(Logical(DefaultSequenceOperator, [x]))
  {
    assert ParseExpressions(ts, e) == Success(ParsedList([], e));
    ExpressionsContinue(ts, 0, x, e, [], e);
    assert [x] + [] == [x];
  }

  /** A query of terms joined by `sep` is their implicit `and`. */
  lemma {:induction false} QueryOfJoined(terms: seq<Node>, sep: seq<Token>)
    requires AllTerms(terms) && (sep == [] || sep == [Sym(Comma)])
    ensures Parse(Joined(terms, sep)) == Success(Logical(DefaultSequenceOperator, terms))
  {
    var ts := Joined(terms, sep);
    AtSuffix(ts, 0);
    assert ts[0..] == ts;
    JoinedAt(ts, 0, terms, sep, |ts|);
    QueryOfTerms(ts, terms, |ts|);
  }

  /** Terms separated by commas and terms written side by side are the same
      query: the implicit `and` of the terms, in order. */
  lemma {:induction false} CommasAreSeparators(terms: seq<Node>)
    requires AllTerms(terms)
    ensures Parse(Joined(terms, [Sym(Comma)])) == Parse(Joined(terms, []))
    ensures Parse(Joined(terms, [])) == Success(Logical(DefaultSequenceOperator, terms))
  {
    QueryOfJoined(terms, []);
    QueryOfJoined(terms, [Sym(Comma)]);
  }
}
