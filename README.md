# StellarPageable query core, in Dafny

StellarPageable adds `GetPaginatedAsync` to `IQueryable<T>`. A `PaginatedRequest` carries three things:

- an optional filter string, clauses such as `Age ge '18'` joined by `;`;
- an optional order string, such as `Name desc`;
- a page number and a page size.

The method narrows the query by the filter, sorts it by the order, counts it, and returns one page in a `PaginatedResponse`. That response carries the page's records, the total count, the page count, and the page number and size echoed back.

This project models the method and its three helpers, `ApplyFilters`, `ApplyFilterOperation` and `ApplyOrderBy`, and proves what they compute.

- `wrappers.dfy` (`Wrappers`): `Option` and `Result`.
- `seqs.dfy` (`Seqs`): facts about sequences the proofs use, and the subsequence relation.
- `text.dfy` (`Text`): the .NET string operations the parser relies on.
  - `String.Split` with `RemoveEmptyEntries`, and `String.Join`.
  - `Trim()`, which trims `Char.IsWhiteSpace`, and `Trim('\'', ' ')`.
  - `ToLower`.
- `models.dfy` (`Models`): the request and response records, with 32-bit `int` fields.
- `records.dfy` (`Records`): the data model and the errors.
  - A record of the queried type is a map from property name to value.
  - The type itself is a `Schema`: its property names, plus the conversion `Convert.ChangeType` applies to a filter value for each property.
  - The exceptions the method lets through are values of `Error`.
- `filtering.dfy` (`Filtering`): the filter half.
  - `ApplyFilters` is a method with a loop over the `;`-segments, proved equal to the specification function `Filtered`.
  - `ApplyFilterOperation` and the clause parser are functions.
- `ordering.dfy` (`Ordering`): `ApplyOrderBy`, with `OrderBy`/`OrderByDescending` modelled as a stable insertion sort.
- `paging.dfy` (`Paging`): `Skip((PageNumber - 1) * PageSize).Take(PageSize)` and the page count.
  - `PageSliceAsWritten` is the page as the source computes it, with the offset wrapped around in 32 bits.
  - `PageSlice` is the page at the exact offset; the paging lemmas are stated on it.
- `queryable_extensions.dfy` (`QueryableExtensions`): the method `GetPaginated`, the specification function `Query` it is proved against, and worked examples of requests.
  - `GetPaginated` returns the page as written. Its contract also says that this is `PageSlice` whenever the offset fits in an `int`.

Errors are values, not exceptions:

- `UnknownProperty`: no such property, from `Expression.Property` or `GetProperty`.
- `ConversionFailed`: `Convert.ChangeType` throws.
- `UnsupportedOperation`: the operator switch throws.
- `IndexOutOfRange`: `orderParts[0]` on an order string with no token.
- `CountOverflow`: `Count()` of more than `int.MaxValue` records.

A filter clause's error is raised when its expression is built, and that happens before any record is read. So the model reports the first failing clause whatever the data, and reports it before any order error.

## Model

| member | source | states |
|---|---|---|
| Text.Pieces | Services/QueryableExtension.cs:48 | `Split(sep)` before empty entries are removed: at least one piece, none containing the separator |
| Text.JoinPieces | Services/QueryableExtension.cs:48 | the pieces joined with the separator are the original string |
| Text.Split | Services/QueryableExtension.cs:48 | `Split(s, sep)` with empty entries removed: every token is non-empty and free of the separator |
| Text.NonEmpty | Services/QueryableExtension.cs:51 | `RemoveEmptyEntries`: every kept piece is a non-empty piece, every non-empty piece is kept, and there are no more of them than pieces |
| Text.NonEmptyAppend | Services/QueryableExtension.cs:51 | removing empty entries works piece by piece, in order: it distributes over concatenation |
| Text.SplitJoin | Services/QueryableExtension.cs:48 | joining non-empty, separator-free tokens with the separator and splitting again gives the tokens back |
| Text.Join | Services/QueryableExtension.cs:56 | `String.Join`: no parts give the empty string, and the result starts with the first part; `SplitJoin` makes `Split` its inverse on separator-free tokens |
| Text.SplitAppend | Services/QueryableExtension.cs:48 | splitting `a + sep + b` gives the tokens of `a` followed by the tokens of `b` |
| Text.SplitOnlySeparators | Services/QueryableExtension.cs:87 | a string made only of separators, the empty string included, splits into no tokens |
| Text.PiecesUnique | Services/QueryableExtension.cs:48 | the separator-free pieces that join back to a string are unique, so `Split` is determined by its round trip |
| Text.TrimStart | Services/QueryableExtension.cs:54-56 | the result is a suffix that does not start with a trimmed character, and everything removed is a trimmed character |
| Text.TrimEnd | Services/QueryableExtension.cs:54-56 | the result is a prefix that does not end with a trimmed character, and everything removed is a trimmed character |
| Text.Trim | Services/QueryableExtension.cs:54-56 | the trimmed string is the slice of `s` after the characters `TrimStart` removes, and everything before and after that slice is a trimmed character |
| Text.TrimMaximal | Services/QueryableExtension.cs:54-56 | the trimmed string neither starts nor ends with a trimmed character |
| Text.TrimPadded | Services/QueryableExtension.cs:54-56 | trimming a string padded on both sides with trimmed characters, whose own ends are not trimmed characters, removes exactly the padding |
| Text.ToLower | Services/QueryableExtension.cs:89 | `ToLower` keeps the length, lower-cases each character in place, and leaves no upper-case letter |
| Text.ToLowerEquals | Services/QueryableExtension.cs:70 | `ToLower(s) == t` for a lower-case `t` holds exactly when `s` has `t`'s length and each character is `t`'s or its upper-case form |
| Filtering.ParseOperator | Services/QueryableExtension.cs:70-79 | an operation selects a comparison exactly when it lower-cases to that comparison's token; on any other operation no comparison is chosen |
| Filtering.ParseOperatorIgnoresCase | Services/QueryableExtension.cs:70-77 | an operation selects `op` if and only if it is the two letters of `op`'s token in any mix of upper and lower case |
| Filtering.CompareDuals | Services/QueryableExtension.cs:72-77 | the six comparisons of `Compare`, one per arm of the switch: `ne` is the negation of `eq`, `ge` of `lt`, `le` of `gt`; `gt` and `ge` are `lt` and `le` with the operands swapped; `eq` is symmetric |
| Filtering.ParseSegment | Services/QueryableExtension.cs:51-56 | a segment gives a clause if and only if it has at least three space-separated tokens |
| Filtering.TrimToken | Services/QueryableExtension.cs:54-55 | a property or operation token without white space is unchanged by `Trim()` |
| Filtering.TrimQuotedValue | Services/QueryableExtension.cs:56 | a value of several words between quotes, rejoined with single spaces and trimmed of quotes and spaces, is the words joined |
| Filtering.ClauseRoundTrip | Services/QueryableExtension.cs:51-56 | the clause form `<field> <op> '<value>'`, with white-space-free field and operator and a value of single-spaced words, parses back to that field, operator and value |
| Filtering.BuildClause | Services/QueryableExtension.cs:66-79 | a predicate is built if and only if the property exists, the value converts and the operator is known; otherwise the error is that of the first failing step, in that order |
| Filtering.Where | Services/QueryableExtension.cs:81-82 | `Holds` is the lambda `e => e.Property op constant`; the result keeps only records of the query that satisfy the clause, and is no longer than the query |
| Filtering.WhereKeeps | Services/QueryableExtension.cs:81-82 | every record of the query that satisfies the clause is kept |
| Filtering.WhereExact | Services/QueryableExtension.cs:82 | `Where` keeps the query's order: the result is a subsequence of the query, with each satisfying record as often as in the query and no other record |
| Filtering.ApplyFilterOperation | Services/QueryableExtension.cs:64-83 | the operation fails exactly when building the clause fails, with the same error; on success the result is a subsequence of the query that holds each record as often as the query does if it satisfies the clause, and otherwise not at all |
| Filtering.WhereAll | Services/QueryableExtension.cs:49-60 | narrowing by a list of clauses keeps only records of the query that satisfy all of them |
| Filtering.WhereAllExact | Services/QueryableExtension.cs:49-60 | the narrowed query is a subsequence of the query, and each record occurs in it as often as in the query if it satisfies every clause, and not at all otherwise |
| Filtering.WhereAllAppend | Services/QueryableExtension.cs:49-60 | narrowing by `a` and then by `b` is narrowing by `a + b` |
| Filtering.WhereAllSnoc | Services/QueryableExtension.cs:58 | one more `Where` after the clauses so far is narrowing by the clauses with it appended |
| Filtering.WhereAllNothing | Services/QueryableExtension.cs:61 | with no clause the query is returned unchanged |
| Filtering.Clauses | Services/QueryableExtension.cs:49-52 | segments yield at most one clause each |
| Filtering.ClausesAppend | Services/QueryableExtension.cs:49-52 | the clauses of two runs of segments are the clauses of the first followed by those of the second |
| Filtering.CompileAll | Services/QueryableExtension.cs:49-58 | when every clause builds, there is one predicate per clause |
| Filtering.CompileAllAppend | Services/QueryableExtension.cs:49-58 | building the clauses of `a + b` fails with `a`'s error if `a` fails, else with `b`'s, else gives both lists of predicates in order |
| Filtering.CompileAllKeepsError | Services/QueryableExtension.cs:58 | once a clause fails, later clauses do not change the error |
| Filtering.FilterStepFails | Services/QueryableExtension.cs:49-58 | a failure at one segment is the failure of the whole filter |
| Filtering.Filtered | Services/QueryableExtension.cs:46-62 | a successful filter keeps only records of the query and is no longer |
| Filtering.FilteredExact | Services/QueryableExtension.cs:46-62 | a successful filter keeps, in the query's order and with their multiplicity, exactly the records satisfying every clause of the filter |
| Filtering.FilterConjunction | Services/QueryableExtension.cs:48-60 | filtering by `a;b` is filtering by `a` and then by `b`, and an error of `a` is reported before any of `b` |
| Filtering.ShortSegmentIgnored | Services/QueryableExtension.cs:52 | a segment of fewer than three tokens changes nothing, alone or after other clauses |
| Filtering.SingleClause | Services/QueryableExtension.cs:48-58 | a filter of one clause without `;` narrows by that clause alone, or fails with that clause's error |
| Filtering.ApplyFilters | Services/QueryableExtension.cs:46-62 | the loop over the segments returns exactly `Filtered` of the query and the filter |
| Ordering.Insert | Services/QueryableExtension.cs:104-108 | inserting a record gives a permutation of the list with it added, one longer, whose elements are the record and the list's |
| Ordering.InsertSorted | Services/QueryableExtension.cs:104-108 | inserting into a list sorted on the key keeps it sorted |
| Ordering.SortBy | Services/QueryableExtension.cs:104-108 | `OrderBy`/`OrderByDescending` returns a permutation of the query of the same length |
| Ordering.SortBySorted | Services/QueryableExtension.cs:89-108 | the sorted query is ordered on the key in the chosen direction |
| Ordering.InsertWithKey | Services/QueryableExtension.cs:104-108 | insertion puts the record ahead of the records with its own key, leaving their order alone |
| Ordering.SortByStable | Services/QueryableExtension.cs:104-108 | the sort is stable: the records with any one key appear in their original order |
| Ordering.ParseOrderBy | Services/QueryableExtension.cs:87-91 | the order string fails with an index error exactly when it has no token, and names its first token otherwise |
| Ordering.DescendingIgnoresCase | Services/QueryableExtension.cs:89-91 | the order is descending if and only if there is a second token made of the four letters of `desc` in any case |
| Ordering.OrderByRoundTrip | Services/QueryableExtension.cs:87-91 | `<field>` sorts ascending on the field; `<field> <direction>` sorts descending exactly when the direction lower-cases to `desc` |
| Ordering.SpacesOnlyOrderBy | Services/QueryableExtension.cs:87-88 | an order string of spaces only fails on the missing token |
| Ordering.ApplyOrderBy | Services/QueryableExtension.cs:85-109 | it succeeds if and only if the string has a token naming a property of the type; no token gives the index error; an unknown property gives the property error; on success the result is a permutation of the query, of its length, sorted on the named property in the named direction, with the records of each key in their original order |
| Paging.CeilDiv | Services/QueryableExtension.cs:40 | the page count is the ceiling of count over page size: `(r - 1) * s < n <= r * s` for positive `s`, mirrored for negative |
| Paging.CeilDivBounds | Services/QueryableExtension.cs:40 | the page count of an `int` count is an `int`, between 0 and the count for a positive page size |
| Paging.Skip | Services/QueryableExtension.cs:32 | LINQ `Skip(n)`: the whole query for `n` of 0 or less, nothing for `n` of at least the count, otherwise the query after its first `n` records |
| Paging.Take | Services/QueryableExtension.cs:33 | LINQ `Take(n)`: a prefix of the query of `Clamp(n)` records, so nothing for `n` of 0 or less and the whole query for `n` of at least the count |
| Paging.TakeSkip | Services/QueryableExtension.cs:32-33 | `Take(n)` followed by `Skip(n)` is the whole query |
| Paging.PageSlice | Services/QueryableExtension.cs:31-34 | the page at the exact offset `(p - 1) * s`, the corrected half of the finding: the records from that position up to `p * s`; at most `s` records; any page number below 1 gives the first page; a non-positive size gives none |
| Paging.PageFull | Services/QueryableExtension.cs:31-34 | every page before the last holds exactly `PageSize` records |
| Paging.PageNonEmpty | Services/QueryableExtension.cs:31-40 | every page from 1 to the page count holds a record |
| Paging.PageBeyondEnd | Services/QueryableExtension.cs:31-40 | every page beyond the page count is empty |
| Paging.PagesCover | Services/QueryableExtension.cs:31-40 | pages 1 to the page count, put together, are the whole query in order |
| Paging.WrapInt32 | Services/QueryableExtension.cs:32 | unchecked `int` arithmetic: the 32-bit value congruent to the exact result, equal to it when it fits |
| Paging.PageSliceAsWritten | Services/QueryableExtension.cs:31-34 | the page as the source computes it: `PageNumber - 1` and then its product with `PageSize` wrap around in 32 bits, and the page is at most `PageSize` records from that clamped offset on, none for a non-positive size |
| Paging.OffsetFits | Services/QueryableExtension.cs:32 | an offset whose exact value fits in an `int` is computed without wrapping, even when `PageNumber - 1` itself overflows |
| Paging.AsWrittenAgrees | Services/QueryableExtension.cs:32 | while the exact offset fits in an `int`, the page the source computes is `PageSlice` |
| Paging.OffsetOverflow | Services/QueryableExtension.cs:32 | page 2^30 + 1 of size 4 lies beyond the end of any query, yet the source returns the first four records |
| Paging.NegativePageWraps | Services/QueryableExtension.cs:32 | page `int.MinValue` of size 1: `PageNumber - 1` wraps to `int.MaxValue`, so the source returns no record where any other page number below 1 gives the first |
| QueryableExtensions.FilterStage | Services/QueryableExtension.cs:16-19 | the filtered query holds only records of the source, no more of them, all of the record type |
| QueryableExtensions.OrderStage | Services/QueryableExtension.cs:22-25 | a null or empty order leaves the query as it is; otherwise the stage succeeds if and only if the order names a property of the type, and then gives a permutation of its input sorted, stably, on that property in the named direction |
| QueryableExtensions.Query | Services/QueryableExtension.cs:15-25 | the query that is counted and paged holds only records of the source and is no longer |
| QueryableExtensions.GetPaginated | Services/QueryableExtension.cs:10-44 | a filter or order error is returned as is; a query longer than `int.MaxValue` is the count overflow; otherwise the response holds the page the source cuts out at its 32-bit offset, which is page `PageNumber` of the query while the exact offset fits in an `int`, at most `PageSize` records; the query's count, its page count, and the request's number and size |
| QueryableExtensions.Paginate | Services/QueryableExtension.cs:27-43 | the count and page steps: more than `int.MaxValue` records is the count overflow; otherwise the page as written, equal to `PageSlice` while the offset fits, with the count, the page count and the echoed number and size |
| QueryableExtensions.EmptyIsNull | Services/QueryableExtension.cs:16-22 | an empty filter or order string acts as a null one |
| QueryableExtensions.NoOptionsKeepsSource | Services/QueryableExtension.cs:15-25 | with neither filter nor order, the query is the source in its own order |
| QueryableExtensions.QueryContents | Services/QueryableExtension.cs:15-28 | the counted query holds each source record exactly as often as in the source if it satisfies every clause, and otherwise not at all; its count is the count of the filtered query |
| QueryableExtensions.QuerySorted | Services/QueryableExtension.cs:22-25 | with an order given, the query is sorted on the property and in the direction it names |
| QueryableExtensions.SpacesOnlyOrderFails | Services/QueryableExtension.cs:22-24 | an order string of spaces passes the null-or-empty guard and fails on the missing token |
| QueryableExtensions.SecondPageOfTwentyFive | Services/QueryableExtension.cs:28-43 | 25 records, page 2 of 10: records 11 to 20, on 3 pages |
| QueryableExtensions.MalformedClauseDropped | Services/QueryableExtension.cs:52 | a filter of one segment with fewer than three tokens has the effect of no filter |
| QueryableExtensions.BadClauseDropped | Services/QueryableExtension.cs:52 | the filter `BadClauseWithTwoTokens` has the effect of no filter |
| QueryableExtensions.UnknownOrderProperty | Services/QueryableExtension.cs:94-98 | ordering by a property the type lacks fails with the property error |
| QueryableExtensions.UnknownOperator | Services/QueryableExtension.cs:70-78 | a clause whose operation is none of the six fails with the operation error, when its property exists and its value converts |
| QueryableExtensions.AgeXxFails | Services/QueryableExtension.cs:78 | the filter `Age xx '5'` fails with the operation error on `xx` |
| QueryableExtensions.HighestAtLeastContents | Services/QueryableExtension.cs:31-34 | the records whose field is at least `n`, by descending field, are exactly the source's such records, sorted, and the first five lead the rest |
| QueryableExtensions.HighestFirst | Services/QueryableExtension.cs:15-34 | `<field> ge '<value>'` ordered by `<field> desc`, page 1 of 5: the query holds exactly the records with the field at least the value, sorted by descending field, and no record left off the page has a greater field than one on it |
| QueryableExtensions.OldestAdultsFirst | Services/QueryableExtension.cs:15-34 | the filter `Age ge '18'` with order `Age desc` gives the records of age 18 or more by descending age |

The definitional helpers `Paging.Clamp` (the count `Skip` and `Take` use) and `QueryableExtensions.IsNullOrEmpty` (`string.IsNullOrEmpty`) have no rows. Their bodies say all there is to say. The contracts of `Skip`, `Take` and `OrderStage` state what they decide.

## Left out

- Reflection and expression trees are not modelled as such. A queried type is the `Schema` of its property names, and a record is a map from those names to values.
- Every property value is an integer compared with `<`, `==` and the rest. Strings, dates, nullable values and null property values are not modelled.
- `Convert.ChangeType` is a parameter of the schema. It gives a value or a failure; its parsing rules are not modelled.
- Filtering.BuildClause: matches the filter's property name exactly, as `GetProperty` in the order half does. `Expression.Property`, which the source uses for filter properties, also finds a property whose name differs only in letter case.
- `ToLower` is modelled on the ASCII letters only. Outside ASCII, only U+0130 (to `i`) and the Kelvin sign U+212A (to `k`) lower-case into ASCII letters. No token `eq`, `ne`, `gt`, `ge`, `lt`, `le` or `desc` contains either letter, so each token is recognised exactly as in .NET. Culture-specific mappings such as the Turkish dotless i touch no letter of these tokens either.
- `Math.Ceiling` over doubles is modelled as the integer ceiling. The two agree when count and page size are 32-bit: a quotient that is not a whole number lies at least 1/PageSize from the nearest integer, and the double's rounding error is far smaller than that.
- QueryableExtensions.GetPaginated: requires a page size other than 0. With a page size of 0 the source casts infinity or NaN to `int`, and the result depends on the runtime. Negative page sizes and page numbers below 1 are modelled as the source computes them, wrap-around included.
- `async`, deferred execution, and translation by a query provider are not modelled. Nor is the fact that `Count()` and `ToList()` each run the query. The model computes the query once, as LINQ to Objects over unchanging data would.
- `OrderBy` is modelled as the stable sort LINQ to Objects performs. A database provider may break ties differently.
- The `Models/` classes become the datatypes `Models.PaginatedRequest` and `Models.PaginatedResponse`. They state nothing, so they have no rows above.

## Findings

| source | as written | input that shows it | evidently intended | confidence | as-written member | corrected member |
|---|---|---|---|---|---|---|
| Services/QueryableExtension.cs:32 | `(request.PageNumber - 1) * request.PageSize` is computed in unchecked 32-bit `int` arithmetic and wraps around | PageNumber 1073741825 (2^30 + 1), PageSize 4, any query of 4 to `int.MaxValue` records: the offset 2^32 wraps to 0 and the first four records are returned. PageNumber `int.MinValue`, PageSize 1, any query of 1 to `int.MaxValue` records: `PageNumber - 1` wraps to `int.MaxValue` and no record is returned | a page beyond the last is empty, and a page number below 1 gives the first page | not executed | Paging.PageSliceAsWritten, Paging.OffsetOverflow, Paging.NegativePageWraps | Paging.PageSlice, Paging.PageBeyondEnd |

`GetPaginated` returns the page as written, `PageSliceAsWritten`, so that it does what the source does. Its contract ties that page to the corrected `PageSlice` for every request whose exact offset fits in an `int`. The paging lemmas are stated on `PageSlice`.
