# SearchExtensions: a Dafny model of the multi-property, multi-term search

The `Search<T>` extension methods of NinjaNye.SearchExtensions filter a record
source to the records where some string property contains some search term.
The general overload checks its arguments for null. It hands the source back
unchanged when there is nothing to search for. Otherwise it builds a LINQ
expression tree: for every non-empty term (outer loop) and every property
(inner loop), it rebinds the property's accessor to the parameter of the first
property. It wraps the rebound accessor body in a `string.Contains` call on the
term and joins that call onto a left-nested `OrElse` chain. The finished chain
becomes a one-parameter lambda, applied with `Where`. The three other
overloads forward to the general one.

The model is functional:

- `Expressions`: a small expression tree (`Param`, `Member`, `Const`,
  `Contains`, `OrElse`) with an interpreter `Eval`, the C# typing rules as
  `TypeOf`, and `Swap`, the parameter substitution done by
  `SwapExpressionVisitor.Swap`. Records are maps from field name to string; a
  field missing from the map holds null.
- `OrTree`: `JoinOr` (`JoinOrExpression`) and `FoldOr`, the accumulator the
  loops produce starting from null.
- `SearchExtensions`: the term filter, the leaves in loop order, the two loops
  as methods, the four overloads returning `Unchanged` or `Where(lambda)`, and
  `Apply`, which runs a query over an in-memory `seq<Record>`.
- `SearchProperties`: what the built lambda means. It keeps exactly the records
  some property of which contains some non-empty term. It is closed over its
  single parameter. Null or empty terms never change it.
- `Text`, `Sequences`, `Results`: ordinal substring search, order-preserving
  filtering, and Option/Result for null references and argument errors.

The code matches with plain, case-sensitive `string.Contains`. It skips terms
by `String.IsNullOrEmpty` without trimming them. An empty property array returns
the source unchanged.

## Model

| member | source | states |
|---|---|---|
| SearchExtensions.Search | SearchExtensions/SearchExtensions.cs:69-110 | A null term array fails with `searchTerms`, and only then a null property array with `stringProperties`. The query is `Unchanged` exactly when no term is non-empty or there is no property; otherwise it is a `Where`. |
| SearchExtensions.SearchBuildsOrChain | SearchExtensions/SearchExtensions.cs:84-108 | A `Where` built by the search has the first property's parameter as its parameter. Its body is a left-nested OR chain with exactly the leaves built in loop order. |
| SearchExtensions.SearchPropertyForTerm | SearchExtensions/SearchExtensions.cs:16-26 | A null property fails with `stringProperty` whatever the term, even an empty one. For a non-null property, the result equals the general search with the one-element term and property arrays, including for a null or empty term. |
| SearchExtensions.SearchPropertiesForTerm | SearchExtensions/SearchExtensions.cs:35-45 | For every term and every property array, null included, the result equals the general search with the one-element term array. |
| SearchExtensions.SearchPropertyForTerms | SearchExtensions/SearchExtensions.cs:54-60 | A null property fails with `stringProperty`. Otherwise the result equals the general search with the one-element property array, so a null term array fails with `searchTerms`. |
| SearchExtensions.BuildOrExpression | SearchExtensions/SearchExtensions.cs:84-106 | The outer loop, starting from a null accumulator and skipping null or empty terms, leaves the fold of every leaf in term-major, property-minor order in the accumulator. |
| SearchExtensions.JoinTermLeaves | SearchExtensions/SearchExtensions.cs:94-105 | The inner loop for one term appends that term's leaf for each property, in property order, to the accumulated OR chain. |
| SearchExtensions.NonEmptyTerms | SearchExtensions/SearchExtensions.cs:87-92 | The terms the outer loop goes on with are never empty, and there are no more of them than terms passed in. |
| SearchExtensions.NonEmptyTermsIsFilter | SearchExtensions/SearchExtensions.cs:87-92 | The terms the outer loop goes on with are the selection of the non-null, non-empty input terms, in input order. |
| SearchExtensions.NonEmptyTermsMembers | SearchExtensions/SearchExtensions.cs:87-92 | Every non-null, non-empty input term is kept. Every kept term is an input term. The kept terms are in input order. |
| SearchExtensions.NonEmptyTermsEmptyIff | SearchExtensions/SearchExtensions.cs:79-92 | The loop keeps no term exactly when every term is null or empty, the second early-return guard. |
| SearchExtensions.LeavesOfCount | SearchExtensions/SearchExtensions.cs:87-106 | The loops build exactly (number of non-empty terms) × (number of properties) `Contains` leaves. |
| SearchExtensions.LeafAt | SearchExtensions/SearchExtensions.cs:87-106 | The leaf for term i and property j is at position i·|properties| + j. It is `Contains` of property j's rebound body on constant term i. |
| SearchExtensions.LeavesOfNonEmpty | SearchExtensions/SearchExtensions.cs:84-108 | With a non-empty term and a property there is at least one leaf, so the accumulator is non-null when the lambda is built. |
| SearchExtensions.ApplySelects | SearchExtensions/SearchExtensions.cs:74-109 | The result is an order-preserving subsequence of the source, holding no record more often than the source does. When the search returns the source, the result is the source itself. For `Where`, it holds exactly the source records on which the lambda is true. |
| SearchExtensions.BuildContainsMeaning | SearchExtensions/SearchExtensions.cs:131-134 | The `Contains` call on a string-typed accessor body is boolean and has the body's free parameters. It is true exactly when the body reads a non-null string in which the constant term occurs. |
| OrTree.JoinOr | SearchExtensions/SearchExtensions.cs:118-126 | A null accumulator yields the new expression itself. Otherwise the result is `OrElse(existing, e)` with both operands unchanged. Its disjuncts are the existing ones followed by those of `e`. |
| OrTree.FoldOr | SearchExtensions/SearchExtensions.cs:84-104 | The accumulator after the loops is non-null exactly when at least one leaf was joined. |
| OrTree.FoldOrShape | SearchExtensions/SearchExtensions.cs:104 | Joining non-`OrElse` leaves one by one gives a left-nested chain whose disjuncts are exactly those leaves, in join order. |
| OrTree.EvalFoldOr | SearchExtensions/SearchExtensions.cs:104 | If every leaf evaluates to a boolean, the chain evaluates to true exactly when some leaf does. |
| OrTree.FoldOrTyped | SearchExtensions/SearchExtensions.cs:108 | A chain of boolean leaves over a set of parameters is a boolean expression over that set, as `Expression.Lambda<Func<T, bool>>` requires. |
| Expressions.EvalSwap | SearchExtensions/SearchExtensions.cs:98-100 | Evaluating a swapped tree is evaluating the original with `from` bound to the record bound to `to`. |
| Expressions.SwapTypeAndFreeParams | SearchExtensions/SearchExtensions.cs:98-100 | Swapping keeps the expression's type. It replaces `from` by `to` among the free parameters and changes no other. |
| Expressions.SwapSelf | SearchExtensions/SearchExtensions.cs:85-100 | Swapping a parameter for itself, as happens for the first property, leaves the tree unchanged. |
| Expressions.SwappedAccessorReadsSameValue | SearchExtensions/SearchExtensions.cs:85-100 | A well-typed accessor rebound to the shared parameter is still a string expression, and that parameter is its only free one. On any record it reads the same value as the original accessor. |
| Expressions.EvalWellTyped | SearchExtensions/SearchExtensions.cs:108-109 | A well-typed tree whose parameters are bound evaluates to a value of its type, so applying the built lambda never gets stuck. |
| Text.ContainsText | SearchExtensions/SearchExtensions.cs:133 | Ordinal `string.Contains` is true exactly when the term occurs as a contiguous substring. |
| Sequences.FilterIsSelection | SearchExtensions/SearchExtensions.cs:109 | `Where` keeps an order-preserving subsequence. Each value occurs as often as in the source if it is selected, and not at all otherwise. |
| SearchProperties.SearchIgnoresNullOrEmptyTerms | SearchExtensions/SearchExtensions.cs:87-92 | Dropping the null and empty terms keeps the same terms. Searching with a term array equals searching with just its non-null, non-empty terms, in order, for every property array. |
| SearchProperties.EvalLeaf | SearchExtensions/SearchExtensions.cs:98-102 | A leaf evaluated on a record is true exactly when the original accessor reads a non-null string containing the term. |
| SearchProperties.SomeLeafHoldsIffMatch | SearchExtensions/SearchExtensions.cs:87-106 | Every leaf evaluates to a boolean. Some leaf is true exactly when some property of the record contains some term. |
| SearchProperties.BuiltFilterHoldsIffMatch | SearchExtensions/SearchExtensions.cs:87-109 | The built lambda holds on a record exactly when some property's value contains some non-empty term. |
| SearchProperties.SearchKeepsExactlyTheMatchingRecords | SearchExtensions/SearchExtensions.cs:74-109 | With well-typed accessors the search never fails. With no non-empty term or no property the result is the source itself. Otherwise it is exactly the source records where some property contains some non-empty term, in source order. |
| SearchProperties.BuiltFilterIsClosed | SearchExtensions/SearchExtensions.cs:85-108 | The built lambda is boolean and its only free parameter is its own. Every disjunct is a `Contains` on a constant whose only free parameter is that one. |
| SearchProperties.LeafIsClosed | SearchExtensions/SearchExtensions.cs:96-102 | Each leaf is a boolean `Contains` on a constant term, with the shared parameter as its only free parameter. |

## Left out

- The fluent builder (`Containing`, `StartsWith`, `IsEqual`, AND-chaining) and the Levenshtein engine are not part of this model. Their implementations are outside the modelled file.
- Case-insensitive matching is not modelled: the modelled code calls plain, ordinal `string.Contains`.
- Strings are Dafny strings, which are sequences of Unicode scalar values. .NET strings are sequences of UTF-16 code units, and ordinal `Contains` compares code units. The two readings agree on well-formed text, but a .NET string holding a lone surrogate has no counterpart in the model.
- Null field values are modelled as non-matches, the way a SQL-backed provider translates `Contains`. Run in memory, the same lambda would throw `NullReferenceException`.
- A null `source` is not checked by the code. `Where` on it would throw; the model always has a source sequence.
- A null element inside the property array would throw `NullReferenceException` at `.Parameters`. The model's property arrays hold no null elements.
- `Parameters.Single()` cannot fail in the model: an accessor is a `Lambda` with exactly one parameter by construction.
- `SwapExpressionVisitor` is not part of this model. Its use at SearchExtensions/SearchExtensions.cs:98-100 is modelled as `Expressions.Swap`. That function is a structural substitution of one parameter by another, with parameters compared by identity. Its meaning is stated by `Expressions.EvalSwap` and `Expressions.SwapTypeAndFreeParams`.
- `typeof(string).GetMethod("Contains")` is modelled as the `Contains` node. Reflection is not modelled.
- `Ensure.ArgumentNotNull` is modelled as a `Failure(ArgumentNull(name))` result. The exception type and message are not modelled.
- `IQueryable` deferred execution and translation to a query provider are not modelled: `Apply` filters an in-memory sequence eagerly.
- Accessors are limited to the shapes the expression tree can write: a field read `x => x.Field` of the parameter, or a constant. Deeper accessors such as `x => x.Owner.Name` (a field of a record-valued field) or `x => x.Name.Trim()` (a method call) are not modelled, because records hold only string fields and the tree has no method-call node besides `Contains`. The swap and evaluation lemmas are stated over every tree, so they do not depend on this limit.
- `TypeOf` accepts `Contains` only with a constant argument. That is the only form the search builds; a null argument would throw rather than evaluate.
- SearchProperties.SearchKeepsExactlyTheMatchingRecords: requires well-typed accessors (string-valued, closed over their own parameter), which the C# compiler guarantees for `Expression<Func<T, string>>` arguments.
