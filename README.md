# gormgolden, modelled in Dafny

gormgolden records the SQL statements an ORM (GORM v1 or v2) sends to a database.
It keeps them in a golden file and checks later runs against that file.
The Go code compares statements on a normalised form, so two statements that differ only in formatting or in ordering still match.
The differences it forgives are spacing, backticks, MySQL charset prefixes, the `LIMIT offset,count` syntax, the order of JOINs and the order of the conditions of the main WHERE clause.

This project models that core and proves properties of the model:

- `GoStrings`, `Sorting`: the Go standard-library string functions the code relies on, and the sorting used in their place.
  - The string functions are `strings.TrimSpace`, `Index`, `LastIndex`, `Split`, `Join`, `ReplaceAll` and `TrimSuffix`.
  - Sorting is an insertion sort by a total preorder.
- `BasicNormalize`: `basicNormalize`, with its loop as a method.
- `Ledger`: `normalize`, and the `QueryManager` class.
  - The class holds the recorded queries and the recording switch.
  - Its methods are `AddQuery`, `Enable`, `Disable`, `Clear` and `GetQueries`.
- `LimitClause`: `normalizeLimitClause`.
- `JoinOrder`: `normalizeJoinOrder`, `extractJoinClauses` and `extractJoinTypeAndTable`, plus the comparator of the JOIN sort.
- `Conditions`: the helpers of `normalizeMainWhereClause`.
  - `flattenNestedParentheses`, `cleanCondition`, `splitWhereConditions`, `flattenAndExtractConditions` and `removeDuplicateConditions`.
  - Each loop of the Go code is a method, proved equal to a recursive specification function.
- `WhereClause`: `normalizeMainWhereClause`.
- `Conjunctions`: how the WHERE pass treats a clause of two plain conditions, in either order and with or without parentheses.
- `Comparison`: `normalizeForComparison` and `CompareQueries`.
- `Equivalences`: the pairs of statements `CompareQueries` is built to match.
  - A charset prefix, the two LIMIT syntaxes, `OFFSET 0`, the order of two WHERE conditions and the order of the JOINs.
- `Golden`: the pure parts of golden-file handling.
  - The content `SaveToFile` writes.
  - How `AssertGolden` and `AssertGoldenSorted` parse that content back.
  - How they compare it, in order and sorted.
- `PluginV1`: `formatValue` and `buildFullSQL` of the GORM v1 plugin.

The SQL parser library (comment stripping, parsing, reprinting) is not part of this model.
It reaches `Ledger.Normalize` as a `SqlParser` value with two total functions.

Strings are `seq<char>`, one character per byte of the Go string.
Go indexes strings by byte and every keyword the code looks for is ASCII, so the searches and slices agree with the Go code on ASCII text.

## Model

| member | source | states |
|---|---|---|
| BasicNormalize.BasicNormalize | common/query_manager.go:78-94 | The loop that replaces double spaces until none is left ends with the collapsed form of its input. Its result is `BasicNormalized(query)`. |
| BasicNormalize.BasicNormalizedShape | common/query_manager.go:78-94 | The result is trimmed and has no line feed, no tab, no double space, no `( ` and no ` )`. It is empty exactly when the input is blank. |
| BasicNormalize.BasicNormalizedNormal | common/query_manager.go:78-94 | The result is in normal form: trimmed, with no line feed, no tab, no double space, no `( ` and no ` )`. |
| BasicNormalize.BasicNormalizedOfNormal | common/query_manager.go:78-94 | Text already in normal form is kept. |
| BasicNormalize.BasicNormalizedIdempotent | common/query_manager.go:78-94 | Normalising twice is normalising once. |
| BasicNormalize.NonSpacePreserved | common/query_manager.go:78-94 | Only white space is edited: the characters that are not white space survive, in order. |
| BasicNormalize.ParenPairSpacing | common/query_manager.go:78-94 | For two parenthesised conditions joined by ` AND ` after a prefix, the spaces just inside each parenthesis are removed and nothing else changes. |
| BasicNormalize.FiveGaps | common/query_manager.go:81-87 | Words separated by runs of spaces, line feeds and tabs come out separated by single spaces. |
| BasicNormalize.WhitespaceExample | common/query_manager_test.go:71-73 | The "Remove extra whitespace" case normalises to its expected text. |
| BasicNormalize.ParenthesisSpacingExample | common/query_manager_test.go:76-78 | The "GORM v1 parentheses removal" case normalises to its expected text. |
| BasicNormalize.BlankExamples | common/query_manager_test.go:81-88 | The "Empty query" and "Only whitespace" cases normalise to the empty string. |
| Ledger.Normalize | common/query_manager.go:37-75 | The empty query, and a query that is blank once comments are stripped, normalise to `""`. |
| Ledger.FallbackShape | common/query_manager.go:50-56 | When parsing fails, the recorded text has the basic-normalisation shape and is not empty. |
| Ledger.QueryManager.constructor | common/query_manager.go:28-34 | A new manager records nothing yet and is enabled, with the given golden file. |
| Ledger.QueryManager.AddQuery | common/query_manager.go:653-664 | While enabled, a non-empty query is normalised and appended. Otherwise nothing changes. The switch is kept. |
| Ledger.QueryManager.Enable | common/query_manager.go:667-671 | Recording is switched on. The queries are kept. |
| Ledger.QueryManager.Disable | common/query_manager.go:674-678 | Recording is switched off. The queries are kept. |
| Ledger.QueryManager.Clear | common/query_manager.go:681-685 | Nothing stays recorded. The switch is kept. |
| Ledger.QueryManager.GetQueries | common/query_manager.go:688-694 | Returns the recorded queries, in order. |
| Ledger.DisabledThenEnabled | common/query_manager.go:653-678 | A query added while disabled is dropped. After `Enable`, the same query is recorded normalised. |
| Ledger.RecordTwo | common/query_manager.go:653-664 | Two recordings give both normalised queries, in order. |
| Ledger.CommentOnlyRecorded | common/query_manager.go:37-48 | A query made only of a comment is non-empty as given, so it is recorded, as `""`. |
| Ledger.ClearKeepsRecording | common/query_manager.go:681-685 | After `Clear`, only later queries are recorded, and recording stays on. |
| LimitClause.RewriteLimit | common/query_manager.go:153-177 | A clause with neither `,` nor ` OFFSET ` is kept. |
| LimitClause.NormalizeLimitClause | common/query_manager.go:135-139 | A query without ` LIMIT ` is kept. |
| LimitClause.LimitFrame | common/query_manager.go:133-180 | Only the LIMIT clause is rewritten. It runs from the first ` LIMIT ` to the first `;` after it, or to the end. The text before and after it is kept. |
| LimitClause.CommaFormRewritten | common/query_manager.go:153-166 | `offset,count` becomes `count OFFSET offset`, or just `count` when the offset is `0`. |
| LimitClause.OffsetZeroDropped | common/query_manager.go:167-177 | `count OFFSET 0` becomes `count`. |
| LimitClause.CommaFormInQuery | common/query_manager.go:133-180 | A query ending in `LIMIT offset,count` gets the rewritten clause in its place. |
| LimitClause.NormalizeLimitLacks | common/query_manager.go:133-180 | The pass adds no character the query lacks, apart from those of ` LIMIT ` and ` OFFSET `. |
| JoinOrder.IndexFromIndex | common/query_manager.go:268-273 | Searching from an offset is `strings.Index` on the rest, moved back into the coordinates of the whole string. |
| JoinOrder.HitsAreOccurrences | common/query_manager.go:265-275 | Every position the keyword scan records is an occurrence of that keyword. The recorded occurrences do not overlap. |
| JoinOrder.HitsCover | common/query_manager.go:265-275 | The scan misses no occurrence: each one overlaps a recorded one. |
| JoinOrder.AllHitsMembers | common/query_manager.go:256-276 | A position is recorded exactly when the scan for one of the six keywords records it. |
| JoinOrder.Positions | common/query_manager.go:278-280 | The recorded positions, sorted in increasing order and without loss. |
| JoinOrder.JoinClauses | common/query_manager.go:283-292 | There is one trimmed fragment per recorded position. |
| JoinOrder.ScanKeyword | common/query_manager.go:266-275 | The inner loop records the positions of one keyword, each search resuming after the previous match. |
| JoinOrder.CollectPositions | common/query_manager.go:265-276 | The outer loop runs the scans for the keywords one after the other. |
| JoinOrder.CutFragments | common/query_manager.go:283-292 | Cuts the section at the sorted positions. Each fragment runs to the next position or to the end, and is trimmed. |
| JoinOrder.ExtractJoinClauses | common/query_manager.go:252-295 | One scan per keyword, then the sort, then the cut. |
| JoinOrder.TableName | common/query_manager.go:303-326 | Take the trimmed text before the first ` ON `. The table name is that text up to its first ` AS `, or all of it when there is none. It holds neither ` ON ` nor ` AS `. |
| JoinOrder.JoinType | common/query_manager.go:302-320 | The join type is LEFT, RIGHT or INNER exactly for the matching leading keywords. A bare `JOIN ` counts as INNER. Anything else gives `""`. |
| JoinOrder.JoinTable | common/query_manager.go:298-329 | A clause of no known type has an empty table name. Every table name holds neither ` ON ` nor ` AS `. |
| JoinOrder.JoinLeTotalPreorder | common/query_manager.go:213-223 | The comparator (by type, then by table) gives a total preorder, so sorting by it is well defined. |
| JoinOrder.SortedJoins | common/query_manager.go:213-223 | The JOINs come out ordered by (type, table), with the same fragments. |
| Sorting.SortedUniqueOn | common/query_manager.go:213-223 | Two sorted permutations of each other are equal when the order has no ties between distinct members. |
| JoinOrder.SortedJoinsAgree | common/query_manager.go:213-223 | Two permutations of the same JOIN fragments, with no two fragments sharing a (type, table) key, sort to the same list. |
| JoinOrder.FromSectionEnd | common/query_manager.go:191-202 | The FROM section ends at the first ` WHERE ` after the search start. If there is none, it ends at the first ` ORDER BY `, else at the end of the query. |
| JoinOrder.FirstJoinIndex | common/query_manager.go:230-237 | The index is that of the first ` JOIN ` in the section. If there is none, it is that of the first ` LEFT `. It is -1 exactly when the section contains neither. |
| JoinOrder.NormalizeJoinOrderAsWritten | common/query_manager.go:184-249 | The pass as written keeps a query without ` FROM `. It is `None` where the Go slice panics. |
| JoinOrder.MainTable | common/query_manager.go:239 | The main table is the trimmed text between ` FROM ` and the first join keyword, or empty when that keyword comes too early. |
| JoinOrder.NormalizeJoinOrder | common/query_manager.go:184-189 | A query without ` FROM ` is kept. |
| JoinOrder.JoinOrderAgrees | common/query_manager.go:184-249 | Wherever the code as written does not panic, the corrected pass gives the same text. |
| JoinOrder.JoinOrderShape | common/query_manager.go:184-249 | The text before the first ` FROM ` and the text from the section end on are kept. Between them come ` FROM `, the main table (the trimmed text up to the first ` JOIN `, else the first ` LEFT `), then the section's fragments sorted by (type, table) and permuted only. |
| JoinOrder.NoJoinUnchanged | common/query_manager.go:230-237 | A FROM section without a join keyword leaves the query unchanged. |
| JoinOrder.EarlyJoinPanics | common/query_manager.go:239 | When the first join keyword starts inside the leading ` FROM `, the code as written fails. |
| JoinOrder.EarlyJoinEmptyMain | common/query_manager.go:239-248 | In that case the corrected pass gives an empty main table and keeps the rest. |
| JoinOrder.JoinOrderPanics | common/query_manager.go:239 | `SELECT * FROM JOIN t` makes the code as written fail. The corrected pass rearranges it. |
| JoinOrder.JoinReorderIgnored | common/query_manager.go:184-249 | Two queries with the same text around the FROM section, the same main table and the same JOIN fragments in any order (with distinct keys) leave the pass as the same query. |
| JoinOrder.NormalizeJoinOrderLacks | common/query_manager.go:184-249 | The pass adds no character the query lacks, apart from those of ` FROM `. |
| Conditions.ScanWrapper | common/query_manager.go:527-540 | The depth scan says whether the first `(` is closed only by the last character. |
| Conditions.Flattened | common/query_manager.go:521-550 | Peeling gives trimmed text that is no longer wrapped. It is a contiguous piece of the input. |
| Conditions.FlattenNestedParentheses | common/query_manager.go:521-550 | The loop peels wrapper layers until none is left, giving `Flattened(s0)`. |
| Conditions.FlattenedIdempotent | common/query_manager.go:521-550 | Flattening twice is flattening once. |
| Conditions.FlattenedFixedPoint | common/query_manager.go:521-550 | Trimmed text that is not wrapped is left alone. |
| Conditions.FlattenedDoubleWrapper | common/query_manager.go:521-550 | `((a))` loses both layers. |
| Conditions.FlattenedTwoGroups | common/query_manager.go:527-540 | `(a) AND (b)` is not a wrapper and is kept. |
| Conditions.Cleaned | common/query_manager.go:599-626 | The result is a slice of the condition. It is trimmed, starts with no `)` and ends with no `(`. |
| Conditions.CleanCondition | common/query_manager.go:599-626 | The loop drops orphan parentheses at the ends until none is left. |
| Conditions.CleanedFixedPoint | common/query_manager.go:599-626 | A trimmed, clean condition is kept. |
| Conditions.SplitWhere | common/query_manager.go:553-596 | Every piece is a non-empty, trimmed, clean condition. When there are several pieces, each is shorter than the clause. |
| Conditions.SplitWhereConditions | common/query_manager.go:553-596 | The depth-counting loop with its builder computes `SplitWhere`. |
| Conditions.SplitWithoutTopLevelAnd | common/query_manager.go:553-596 | Without a top-level ` AND `, the clause gives at most one condition. |
| Conditions.SplitAtFirstTopLevelAnd | common/query_manager.go:566-578 | The split happens at the first top-level ` AND `, and the rest is split on its own. |
| Conditions.FindTopLevelAnd | common/query_manager.go:398-412 | The counting scan says whether the text has a ` AND ` outside every parenthesis. |
| Conditions.FlattenAndExtract | common/query_manager.go:439-461 | Gives at least one condition. Each is flattened and splits no further. |
| Conditions.ExtractAtomic | common/query_manager.go:439-461 | A condition with nothing to peel and nothing to split comes back alone. |
| Conditions.Dedup | common/query_manager.go:504-517 | The result is distinct, non-empty and trimmed. |
| Conditions.DedupMembers | common/query_manager.go:504-517 | The members are exactly the non-empty trimmed inputs: only blanks and repeats are lost. |
| Conditions.DedupFromSkips | common/query_manager.go:504-517 | A condition that is blank, already seen, or seen earlier in the list does not change the result. |
| Conditions.DedupKeepsFirst | common/query_manager.go:504-517 | A later repeat of a condition can be dropped without changing the result: the first occurrence is the one kept. |
| Conditions.RemoveDuplicateConditions | common/query_manager.go:504-517 | The loop with its `seen` map keeps the first occurrence of each trimmed, non-empty condition. |
| WhereClause.SearchStart | common/query_manager.go:339-349 | The search starts at an ` ON ` with no ` ON ` after it, that is the last one. Without ` ON `, it starts at the first ` FROM `, else at 0. |
| WhereClause.WhereEnd | common/query_manager.go:360-368 | The clause ends at the first ` ORDER BY ` after its start. If there is none, it ends at the first ` LIMIT `, else at the end of the query. |
| WhereClause.LocateWhere | common/query_manager.go:351-373 | There is no clause exactly when no ` WHERE ` follows the search start. Otherwise the query is before + ` WHERE ` + clause + after, cut at the first such ` WHERE `. |
| WhereClause.UnwrapTopLevelAnd | common/query_manager.go:390-417 | The outer parentheses are peeled exactly when the clause is wrapped in them and the trimmed inside has a top-level ` AND `. The result is then that trimmed inside. |
| WhereClause.TopLevelAndContains | common/query_manager.go:396-408 | A top-level ` AND ` is an occurrence of ` AND `. |
| WhereClause.CanonicalConditions | common/query_manager.go:420-432 | The re-emitted conditions are sorted, distinct, non-empty and trimmed. A string is among them exactly when it is a non-empty condition extracted from the clause, once trimmed. |
| WhereClause.LocateWhereAt | common/query_manager.go:351-373 | With the first main ` WHERE ` at `w` and the clause ending at `e`, the query splits at `w`, `w + 7` and `e`. |
| WhereClause.NormalizeMainWhereClause | common/query_manager.go:351-355 | A query without a main ` WHERE ` is kept. |
| WhereClause.MainWhereShape | common/query_manager.go:333-436 | The text before the main ` WHERE ` is kept. Then come the canonical conditions of the clause, the text from ` WHERE ` to the clause end, joined by ` AND `. Then comes the text from the clause end. A `;` that closed the clause is moved after it. |
| WhereClause.ConditionOrderIrrelevant | common/query_manager.go:429-432 | Lists of conditions with the same members give the same output, whatever their order and repetitions. |
| WhereClause.NormalizeMainWhereLacks | common/query_manager.go:333-436 | The pass adds no character the query lacks, apart from `;` and those of ` WHERE ` and ` AND `. |
| Conjunctions.PlainAtomic | common/query_manager.go:439-461 | A plain condition splits, flattens and extracts to itself alone. |
| Conjunctions.ParenAtomic | common/query_manager.go:439-461 | A plain condition in parentheses is one piece, and extracting it peels the parentheses. |
| Conjunctions.ExtractedPlain | common/query_manager.go:420-461 | `a AND b` of two plain conditions extracts to `[a, b]`. |
| Conjunctions.InnerHasNoTopLevelAnd | common/query_manager.go:390-417 | Inside `(a) AND (b)` with its outer characters dropped, no ` AND ` lies outside every parenthesis, so the clause is not unwrapped. |
| Conjunctions.ExtractedParenthesised | common/query_manager.go:390-461 | `(a) AND (b)` of two plain conditions extracts to `[a, b]`. |
| Conjunctions.CanonicalPair | common/query_manager.go:420-432 | Deduplicating and sorting two plain conditions gives them once each, in string order. |
| Conjunctions.ConjunctionCanonical | common/query_manager.go:390-432 | `a AND b`, `b AND a` and `(a) AND (b)` give the same canonical conditions. |
| Comparison.StripCharsetIsRegex | common/query_manager.go:105-106 | The left-to-right scan computes what `ReplaceAllString` of `_UTF8MB4([0-9A-Za-z]+)` by `$1` computes. |
| Comparison.StripCharsetNoPrefix | common/query_manager.go:105-106 | Text without `_UTF8MB4` passes unchanged. |
| Comparison.StripCharsetExample | common/query_manager.go:105-106 | `x=_UTF8MB4ABC` becomes `x=ABC`. |
| Comparison.Prepared | common/query_manager.go:97-106 | After the backtick removal and the charset stripping, no backtick is left. |
| Comparison.NormalizeForComparison | common/query_manager.go:97-126 | The result holds no parenthesis and no backtick: no pass after their removal brings one back. |
| Comparison.CompareQueriesEquivalence | common/query_manager.go:991-995 | `CompareQueries` is reflexive, symmetric and transitive. |
| Equivalences.PreparedOfSettled | common/query_manager.go:97-106 | Text already in basic normal form, with no backtick and no `_UTF8MB4`, passes the first three steps unchanged. |
| Equivalences.CharsetStripIgnored | common/query_manager.go:97-126 | A normal statement without backticks and the same statement with its charset introducers stripped compare equal. |
| Equivalences.CharsetIgnored | common/query_manager.go:97-126 | `x=_UTF8MB4ABC` and `x=ABC` compare equal, a concrete pair of the kind `CharsetStripIgnored` covers. |
| Equivalences.CommaLimitPass | common/query_manager.go:133-180 | The LIMIT pass gives the same text for `LIMIT offset,count` and `LIMIT count OFFSET offset`. |
| Equivalences.CommaLimitMatchesOffset | common/query_manager.go:97-180 | A query ending in `LIMIT offset,count` and the same query ending in `LIMIT count OFFSET offset` compare equal. |
| Equivalences.ZeroOffsetIgnored | common/query_manager.go:97-180 | A query ending in `LIMIT count OFFSET 0` and the same query ending in `LIMIT count` compare equal. |
| Equivalences.EarlyPassesKeep | common/query_manager.go:97-116 | Settled text without `;`, LIMIT, ORDER BY or a join keyword passes every step before the WHERE pass unchanged. |
| Equivalences.WhereAtEnd | common/query_manager.go:333-436 | A WHERE clause that runs to the end of the query is replaced by its canonical conditions joined by ` AND `. |
| Equivalences.SameConditionsCompare | common/query_manager.go:97-126 | Two such queries with the same text before ` WHERE ` and the same canonical conditions compare equal. |
| Equivalences.WhereOrderIgnored | common/query_manager.go:97-126 | `… WHERE (a) AND (b)` and `… WHERE b AND a` compare equal for plain conditions `a` and `b`. |
| Equivalences.JoinOrderIgnored | common/query_manager.go:97-126 | Settled queries without LIMIT that differ only in the order of their JOIN fragments (same text around the FROM section, same main table, distinct keys) compare equal. |
| Golden.Content | common/query_manager.go:709-712 | No queries give empty content. Non-empty content ends in `;`. |
| Golden.Statements | common/query_manager.go:748-754 | Every statement read back is non-blank and holds no `;\n`. |
| Golden.GoldenRoundTrip | common/query_manager.go:709-754 | Reading back the saved content gives the saved queries, when each is non-blank and free of `;\n`. |
| Golden.BlankEntryLost | common/query_manager.go:709-754 | A blank recorded entry does not survive: `["a", ""]` reads back as `["a"]`. |
| Golden.NormalizeEach | common/query_manager.go:742-745 | The loop normalises every recorded query, in order. |
| Golden.NormalizeNonBlank | common/query_manager.go:749-754 | The loop normalises the non-blank pieces of the golden file, in order. |
| Golden.MatchInOrder | common/query_manager.go:757-765 | The verdict is true exactly when the two lists are equal. |
| Golden.AssertGoldenMatch | common/query_manager.go:718-765 | `AssertGolden`'s normalised verdict is `GoldenMatches`. |
| Golden.SavedGoldenMatches | common/query_manager.go:697-765 | A golden file written from the recorded queries matches them. |
| Golden.AssertGoldenSortedMatch | common/query_manager.go:850-903 | `AssertGoldenSorted`'s normalised verdict is `SortedGoldenMatches`. |
| Golden.SortStringsEqual | common/query_manager.go:883-893 | Two lists sort alike exactly when they are the same multiset. |
| Golden.SortedMatchIsMultiset | common/query_manager.go:850-903 | The sorted verdict holds exactly when the normalised queries and the normalised statements are the same multiset. |
| Golden.SortedMatchPermutation | common/query_manager.go:850-903 | The order of recording does not change the sorted verdict. |
| Golden.SavedSortedGoldenMatches | common/query_manager.go:850-903 | A golden file written by `AssertGoldenSorted` matches the queries in any order. |
| PluginV1.DigitsValue | gormgoldenv1/plugin.go:93-94 | Decimal digits read back as the number. |
| PluginV1.PadExact | gormgoldenv1/plugin.go:93-94 | A number below `10^width` pads to exactly `width` digits that read back as the number. |
| PluginV1.FormatValue | gormgoldenv1/plugin.go:76-88 | `nil` and a nil pointer both render as `NULL`. |
| PluginV1.PointerOnce | gormgoldenv1/plugin.go:82-88 | A pointer is dereferenced once: a pointer to a plain value renders as the value. A pointer to a pointer renders with `%v`. |
| PluginV1.UndoubleDoubled | gormgoldenv1/plugin.go:91-92 | Un-doubling the doubled quotes gives the string back. |
| PluginV1.StringLiteralRoundTrip | gormgoldenv1/plugin.go:91-92 | A string renders as a quoted literal whose inside, un-doubled, is the string. |
| PluginV1.BytesLiteralRoundTrip | gormgoldenv1/plugin.go:95-96 | A byte slice renders as the quoted literal of its text. |
| PluginV1.TimeLiteral | gormgoldenv1/plugin.go:93-94 | A time with a four-digit year renders as `'YYYY-MM-DD HH:MM:SS'`. Every field is zero-padded and reads back as itself. |
| PluginV1.ReplaceFirstPlaceholder | gormgoldenv1/plugin.go:66-70 | Text without `?` is kept. |
| PluginV1.BuildFullSql | gormgoldenv1/plugin.go:57-74 | The loop computes `Fill(sql, vars)`, and no variables give `sql` back. |
| PluginV1.SurplusVarsDropped | gormgoldenv1/plugin.go:64-71 | Once no `?` is left, further variables change nothing. |
| PluginV1.FillPastPrefix | gormgoldenv1/plugin.go:64-71 | Text before the first `?` is carried through unchanged. |
| PluginV1.FillIsLeftToRight | gormgoldenv1/plugin.go:57-74 | When no formatted value holds a `?`, the result is the plain left-to-right substitution. |
| PluginV1.PlaceholderInLiteral | gormgoldenv1/plugin.go:64-71 | A `?` inside an inserted literal is taken by the next variable: `?,?` with `'?'` and `true` gives `'TRUE',?`. |

## Left out

- The SQL parser library: its comment stripping, parsing and reprinting are the `SqlParser` parameter of `Ledger.Normalize`.
  - A failure to reprint a statement and a failure to parse are the same outcome, `Failed`.
- The mutex of `QueryManager`: the model is sequential.
  - The registries and `Register` and the other package functions of the plugins are left out, as are the GORM callbacks.
- File and test-framework I/O: directory creation, reading and writing files, `golden.Assert`, and the printed diagnostics.
  - The raw-text check `golden.Assert` makes after the normalised comparison is also left out, as is the printed diff.
  - `Golden.AssertGoldenMatch` and `Golden.AssertGoldenSortedMatch` model only the normalised verdict.
- `CompareQueriesDebug` and `DebugWhereClause`: they only print or echo intermediate values.
- `forceExpandCompoundConditions` and `normalizeWhereClause`: nothing in the code calls them.
- The GORM v2 plugin: it renders statements through GORM's own dialector, which is not part of this model.
- `GoStrings.TrimSpace` trims ASCII white space only. Go's `strings.TrimSpace` also trims Unicode white space.
- `PluginV1.TimeText`: `time.Time.Format` is modelled on the calendar fields as given.
  - Time zones, validation of the fields and years outside four digits are not modelled beyond a leading `-`.
- `PluginV1.Value`: `%v` of the default case, and of a pointer to a pointer, is an opaque given string.
  - `fmt` is not modelled.
  - A pointer to a nil pointer renders as the inner pointer's given string, where Go prints `<nil>`.
- Go's `[]byte` to `string` conversion is read as one character per byte. There is no UTF-8 decoding.
- `Sorting.SortBy`: the model sorts by a stable insertion sort, while `sort.Slice` in `normalizeJoinOrder` and `extractJoinClauses` is not stable.
  - Only properties that do not depend on how ties are ordered are proved.
  - These are sortedness, the permutation, and equality of the results for `sort.Strings`, where equal keys are equal strings.
  - For JOIN fragments with equal (type, table) keys, the model fixes one order where Go may pick another.
- `JoinOrder.JoinClauses`: overlapping keyword hits are kept as the code finds them.
  - For example, ` LEFT JOIN t` also matches ` JOIN `, which yields an extra fragment.
  - No property claims that the fragments are disjoint.
- `Comparison.NormalizeForComparison`: the pipeline is not claimed idempotent, and no proof of idempotence is attempted.
- `Comparison.NormalizeForComparison` uses the corrected `JoinOrder.NormalizeJoinOrder` (see Findings).
  - The code as written is `JoinOrder.NormalizeJoinOrderAsWritten`.

- `Equivalences`: the equivalences are proved for statements already in basic normal form, free of backticks and of `_UTF8MB4` (except the first statement of `CharsetStripIgnored`), and (for the WHERE pair) free of `;`, LIMIT, ORDER BY and join keywords.
  - How backtick removal distributes over the pieces of a statement is not proved, so backticked forms are not covered.
- `Equivalences.JoinOrderIgnored` and `JoinOrder.JoinReorderIgnored`: the reordering is stated on the fragments the JOIN scan extracts, as a permutation with distinct (type, table) keys, not on a literal text pair.
  - Fragments with equal keys are left out because Go's unstable sort may order them either way.

## Findings

| source | as written | input that shows it | evidently intended | confidence | as-written member | corrected member |
|---|---|---|---|---|---|---|
| common/query_manager.go:239 | `fromSection[6:firstJoinIdx]` slices backwards when the first ` JOIN ` or ` LEFT ` starts at index 5. There it overlaps the space that ends ` FROM `, so the slice panics. | `SELECT * FROM JOIN t` | An empty main table, with the JOINs still sorted after ` FROM ` | not executed | JoinOrder.NormalizeJoinOrderAsWritten (with JoinOrder.JoinOrderPanics) | JoinOrder.NormalizeJoinOrder (with JoinOrder.EarlyJoinEmptyMain, JoinOrder.JoinOrderAgrees) |
