/** The token vocabulary of the query language and the parser's operator
    tables (lib/scoped_search/query_language/parser.rb, lines 3-10). */
module Tokens {

  /** The closed set of operator symbols the tokenizer emits. `LParen`,
      `RParen` and `Comma` are structural markers: the grammar consumes them
      and does not store them in the tree, except that the comparison rule's
      prefix form makes any non-literal token (a marker or `and`/`or`
      included) the operator of a one-child node. */
  datatype Symbol =
    | And | Or | Not | Null | NotNull
    | Eq | Ne | Gt | Gte | Lt | Lte | Like | Unlike
    | LParen | RParen | Comma

  /** A token is told apart by its kind, never by its text: a literal string
      is a value however it reads, everything else is an operator symbol. */
  datatype Token = Lit(text: string) | Sym(symbol: Symbol)

  /** The operator that joins juxtaposed expressions. */
  const DefaultSequenceOperator: Symbol := And

  const LogicalInfixOperators: seq<Symbol> := [And, Or]
  const LogicalPrefixOperators: seq<Symbol> := [Not]
  const NullPrefixOperators: seq<Symbol> := [Null, NotNull]
  const ComparisonOperators: seq<Symbol> := [Eq, Ne, Gt, Gte, Lt, Lte, Like, Unlike]
  const AllInfixOperators: seq<Symbol> := LogicalInfixOperators + ComparisonOperators
  const AllPrefixOperators: seq<Symbol> :=
    LogicalPrefixOperators + ComparisonOperators + NullPrefixOperators

  /** The comparison operators are exactly the symbols that appear in both the
      infix and the prefix table, which is why the comparison rule has to look
      at the next token to decide between the two forms; the structural
      markers appear in neither. */
  lemma OperatorTables()
    ensures forall s: Symbol :: (s in AllInfixOperators && s in AllPrefixOperators) <==> s in ComparisonOperators
    ensures forall s: Symbol :: s in [LParen, RParen, Comma] ==> s !in AllInfixOperators && s !in AllPrefixOperators
    ensures DefaultSequenceOperator in LogicalInfixOperators
  {
  }

  /** The texts of the literal tokens among `ts[i..j]`, in order. */
  function LiteralsIn(ts: seq<Token>, i: nat, j: nat): seq<string>
    requires i <= j <= |ts|
    decreases j - i
  {
    if i == j then []
    else (if ts[i].Lit? then [ts[i].text] else []) + LiteralsIn(ts, i + 1, j)
  }

  /** Reading `ts[i..k]` is reading `ts[i..j]` and then `ts[j..k]`. */
  lemma {:induction false} LiteralsSplit(ts: seq<Token>, i: nat, j: nat, k: nat)
    requires i <= j <= k <= |ts|
    ensures LiteralsIn(ts, i, k) == LiteralsIn(ts, i, j) + LiteralsIn(ts, j, k)
    decreases j - i
  {
    if i < j {
      LiteralsSplit(ts, i + 1, j, k);
    }
  }
}
