# scoped_search query parser, modelled in Dafny

This project models the recursive-descent parser of scoped_search's query
language (`ScopedSearch::QueryLanguage::Parser`). The parser reads a token
sequence, where each token is either a literal string or an operator symbol.
It builds the syntax tree that exists before simplification:

- leaves for values;
- operator nodes for `not`, `null`/`notnull` and the comparisons, and the
  one-child node the comparison rule's prefix form builds around whatever
  non-literal token comes first (a marker or `and`/`or` included);
- logical nodes for `and`/`or` and for the implicit `and` that joins the
  expressions of a query or of a parenthesised group.

The grammar has one checked error, "value expected". Everything else the
grammar accepts, degenerate shapes included:

- a trailing `and` gives an absent right operand, the only place an operand
  can be missing: it is the right edge of the tree (`AbsentLast`);
- an unmatched `)` silently ends the query;
- a group left open at the end of input is closed implicitly.

Layout:

- `wrappers.dfy`: `Option`.
- `tokens.dfy`: the token vocabulary, the operator tables, and the literals
  read over a window of tokens.
- `ast.dfy`: the tree. It holds the absent operand, the shapes the grammar
  can build (`WellFormed`) and the leaves of a tree.
- `parser.dfy`: the token cursor and one function per grammar rule. Each rule
  takes the tokens and the position of the first unread token. It returns
  either the node and the position after it, or `Failure(found)`, where
  `found` is the offending token (`None` at the end of input). The
  logical-expression rule's `case` on the next token is its own function,
  `ParseOperand`.
- `properties.dfy`: properties over whole families of inputs. The main
  lemmas compare the parser with an independent description of the expected
  tree: terms and how they are written (`Render`, `TermAt`), right-nested
  chains (`RightChain`), runs of negations (`Nots`), lists of terms with or
  without commas (`ListAt`, `Joined`). The rest are helpers that take one
  step of a rule at a time.
- `examples.dfy`: small queries and their trees, derived from those
  properties.

Two facts hold for every rule:

- Every literal it consumes becomes exactly one leaf, in reading order
  (`Consumed`).
- Every failure it reports names either the end of input or an operator
  symbol of the input (`Reported`).

## Model

| member | source | states |
|---|---|---|
| Tokens.OperatorTables | lib/scoped_search/query_language/parser.rb:3-10 | The comparison operators are exactly the symbols in both the infix and the prefix table. The structural markers are in neither table, and the sequence operator `and` is a logical infix operator. |
| Parser.Peek | lib/scoped_search/query_language/parser.rb:96-98 | Lookahead yields "no token" exactly at the end of input and the front token otherwise. It never fails. |
| Parser.Next | lib/scoped_search/query_language/parser.rb:100-102 | Consuming returns the token `Peek` sees. The cursor advances by one exactly when there was a token and stays put on empty input. |
| Parser.SkipMarker | lib/scoped_search/query_language/parser.rb:19-21 | A marker is skipped only when skipping is enabled and that marker comes next. Skipping consumes no literal. |
| Parser.Parse | lib/scoped_search/query_language/parser.rb:12-15 | A successful parse is a well-formed implicit `and` whose children are all well formed. When the input has no `)`, its leaves are all the literals of the input, in order. Failures report the end of input or an input symbol. An absent operand anywhere in the tree means the input ends with `and`/`or`, and it sits at the right edge of the tree: every child but the last is free of one (`AbsentLast`). |
| Parser.ParseSequence | lib/scoped_search/query_language/parser.rb:17-23 | The result is always an implicit `and` of well-formed expressions. At the top level it stops at the end of input or in front of a `)`, which it does not consume. A group consumes its `(` and stops after its `)` or at the end of input. An absent operand appears only when the parse reached the end of input and the input ends with `and`/`or`, and only in the last expression, at its right edge. |
| Parser.ParseExpressions | lib/scoped_search/query_language/parser.rb:20 | The loop gathers well-formed expressions whose leaves are the literals read, in order. It stops exactly at the end of input or at a `)`. An absent operand in an expression means the loop read to the end of an input that ends with `and`/`or`. Only the last expression may hold one, at its right edge, and at the end of input the list is empty. |
| Parser.ParseLogical | lib/scoped_search/query_language/parser.rb:25-41 | At the end of input the operand is absent and nothing is consumed. Otherwise the rule consumes at least one token and builds a well-formed node. An absent operand inside the result of a non-empty read implies the input was read to its end and ends with `and`/`or`, the only place the grammar leaves a right operand missing: it is the right child of the final `and`/`or`, and no other child holds one. |
| Parser.ParseOperand | lib/scoped_search/query_language/parser.rb:26-32 | The dispatch returns absent only at the end of input. Anywhere else it makes progress and yields a well-formed node, with every consumed literal as a leaf, and an absent operand inside it means the input was read to its end and ends with `and`/`or`, and sits at the right edge of the node. |
| Parser.ParseNot | lib/scoped_search/query_language/parser.rb:43-51 | A negation is an operator node `not` with exactly one well-formed child, and it consumes at least the `not`. An absent operand inside it means the input was read to its end and ends with `and`/`or`, and sits at the right edge. |
| Parser.ParseNull | lib/scoped_search/query_language/parser.rb:53-55 | A null check succeeds if and only if a literal follows the `null`/`notnull`. It is then the one-child node of that operator over that value, two tokens long, with no absent operand. Otherwise it fails, reporting the token after the operator. |
| Parser.ParseComparison | lib/scoped_search/query_language/parser.rb:57-64 | One leading comma is dropped. If a literal comes next, the result is exactly the infix comparison read from there. Otherwise the next token, or the end of input, is taken as a prefix operator: the rule succeeds if and only if a literal follows it, giving that operator over that one value two tokens on, and otherwise fails, reporting the token after the operator or the end of input. A result is never absent, holds no absent operand and always consumes at least one token. |
| Parser.ParsePrefixComparison | lib/scoped_search/query_language/parser.rb:62-64 | Succeeds if and only if a literal follows the operator token. It then gives that operator over that one value. Otherwise it fails, reporting what followed the operator, or the end of input. |
| Parser.ParseInfixComparison | lib/scoped_search/query_language/parser.rb:66-83 | A missing first value fails, reporting the token found. A value before a comma is returned with the comma consumed. A value before a comparison operator needs a second value, and the result is the two-child comparison. A value before anything else is returned and the next token is left unread. |
| Parser.ParseValue | lib/scoped_search/query_language/parser.rb:85-88 | Succeeds if and only if the next token is a literal. It then consumes exactly that token as a leaf. Otherwise it fails, reporting the next token, or `None` at the end of input. |
| Properties.TermOperand | lib/scoped_search/query_language/parser.rb:57-60 | A term written out, optionally after one comma, is read back as itself. A bare value also consumes one comma after it. |
| Properties.TermParses | lib/scoped_search/query_language/parser.rb:66-83 | A term followed by a token that cannot extend it is read back as itself, consuming exactly its own tokens. |
| Properties.ChainIsRightAssociative | lib/scoped_search/query_language/parser.rb:25-40 | A chain `x0 op0 x1 ... xn` of any operands, each as the operand rule reads it from where the previous one ended (terms, groups, negations, null checks, an absent last operand), joined by `and`/`or`, parses to the right-nested tree, with no precedence between the two operators, and stops exactly after the last operand. |
| Properties.TermChainIsRightAssociative | lib/scoped_search/query_language/parser.rb:34-40 | A chain `t0 op0 t1 ... tn` of terms written out token by token, followed by a token that cannot continue it, parses to the right-nested tree and stops exactly at the end of the chain. |
| Properties.QueryOfChain | lib/scoped_search/query_language/parser.rb:12-23 | A query that is one chain of terms is the right-nested chain under the implicit `and`. |
| Properties.TrailingOperator | lib/scoped_search/query_language/parser.rb:26-27 | A term followed by an `and`/`or` as the last token yields that operator with the term on the left and an absent right operand. |
| Properties.NotNegatesOperand | lib/scoped_search/query_language/parser.rb:43-51 | `not` wraps exactly what the operand rule would read after it, including a null check, and passes on its failures. `not` as the last token fails, reporting the end of input. |
| Properties.NotChain | lib/scoped_search/query_language/parser.rb:43-51 | `k` consecutive `not`s before a term nest `k` negation nodes around it. |
| Properties.ListParses | lib/scoped_search/query_language/parser.rb:20 | Terms written one after another, each optionally after a comma, are read as separate expressions, in order, up to the end of input or the first `)`. |
| Properties.QueryOfTerms | lib/scoped_search/query_language/parser.rb:17-23 | A query of terms is their implicit `and`. The query stops in front of the first `)` without consuming it, so an unmatched `)` silently ends the parse. |
| Properties.GroupOfTerms | lib/scoped_search/query_language/parser.rb:19-21 | A parenthesised group of terms is their implicit `and`. The group consumes its `(` and its `)`, and a group left open at the end of input is accepted. |
| Properties.QueryOfJoined | lib/scoped_search/query_language/parser.rb:17-23 | Terms joined with nothing or with commas parse to their implicit `and`, in order. |
| Properties.CommasAreSeparators | lib/scoped_search/query_language/parser.rb:58 | Putting commas between terms does not change the query: either way it is the implicit `and` of the terms. |
| Examples.MixedChain | lib/scoped_search/query_language/parser.rb:34-40 | `a and b or c` nests as `and(a, or(b, c))` under the implicit `and`. |
| Examples.DoubleNegation | lib/scoped_search/query_language/parser.rb:45-46 | `not not a` is two nested negations. |
| Examples.TrailingAnd | lib/scoped_search/query_language/parser.rb:34-37 | `a and` is `and(a, absent)` under the implicit `and`. |
| Examples.UnmatchedClose | lib/scoped_search/query_language/parser.rb:20 | In `a ) b`, the parse ends at the `)` and `b` is never read. |
| Examples.GroupInChain | lib/scoped_search/query_language/parser.rb:26-37 | `(a or b) and c` is `and` over the group's implicit `and` of `or(a, b)` and `c`: a group is a left operand like any other. |
| Examples.GroupThenValue | lib/scoped_search/query_language/parser.rb:19-21 | `(a b) c` is the group's implicit `and` followed by `c`. |
| Examples.MissingValue | lib/scoped_search/query_language/parser.rb:86 | A lone comparison operator is a prefix comparison whose value is missing, so the parse fails, reporting the end of input. |
| Examples.TrailingCommaAfterComparison | lib/scoped_search/query_language/parser.rb:71-80 | A comma after a two-value comparison is not consumed by it. The next expression then finds no value, so `a = b ,` fails, while `a ,` is accepted (`Examples.TrailingCommaAfterValue`). |

## Left out

- Tokenizing (line 13): the tokenizer comes from elsewhere in the library and
  is not part of this model. The model starts from a given token sequence,
  with literals and symbols told apart by kind.
- Simplification (line 14) and the internals of the node classes: the model
  gives the tree before simplification, as a plain datatype.
- The exception class and its message text (line 86): a failure only carries
  the offending token, and it is propagated to the entry point with no partial
  tree.
- `current_token` (lines 92-94): it is written by `next_token` but never read
  by the grammar.
- The mutable token array and the `amount` argument of `peek_token`: the
  cursor is a position into an immutable sequence, and every rule looks one
  token ahead.
- `ALL_INFIX_OPERATORS` and `ALL_PREFIX_OPERATORS` (lines 9-10) are not used
  by the grammar. They appear only as constants, described by
  `Tokens.OperatorTables`.
- Parser.ParseNot: requires that the next token is `not`. Its only callers
  (lines 29 and 46) dispatch on exactly that.
- Parser.ParseNull: requires that the next token is `null` or `notnull`,
  which is what its only caller (line 30) dispatches on.
- Parser.ParsePrefixComparison: requires that the next token is not a
  literal, or that the input is exhausted, which is what its only caller
  (line 59) guarantees.
- Properties.TermOperand, Properties.ListParses, Properties.QueryOfJoined:
  the list, group and negation lemmas cover terms (bare values and two-value
  comparisons) written out token by token. `Properties.ChainIsRightAssociative`
  covers chains of arbitrary operands, but the other family lemmas do not
  cover arbitrary nesting of these forms. That nesting is constrained by
  `WellFormed` and by the leaf-accounting contracts of the rules instead.
