# Verification of the semstrait compiler and query planner

semstrait compiles a semantic model (datasets, dimensions, measures, metrics, relationships) into a
manifest and turns a query over semantic names into a plan. This project models the algorithms in
between that decide what a query means, and proves them correct in Dafny.

| part | files | main results |
|---|---|---|
| expressions | `Exprs` | SQL evaluation with NULL, typing, type soundness |
| folding | `Simplify`, `SimplifyMeaning`, `FoldExactness`, `NullSafety` | one pass reaches a normal form; folding keeps the SQL value; exactly when a fold is wrong |
| measures and metrics | `Resolver`, `Aggregation`, `Decomposer`, `MetricMeaning`, `MetricBound` | conditional aggregation, meaning of the metric plan, exactly when a metric decomposes, compile check implies planning success |
| metric graph | `MetricGraph`, `MetricOrder`, `Sorting`, `Identifiers` | unique depths, termination of the change-until-stable loop, evaluation order, leaf measures, exactly which names the graph sees |
| inline language | `Scanner`, `DslParser`, `Numerals`, `Grammar`, `RoundTrip`, `CallTexts`, `GrammarParsing`, `RawSql`, `ParserTheorems`, `Parentheses`, `Chains` | precedence and associativity in any layout, the value of every number, the SQL guard, an exact round trip |
| relationships and joins | `RelationshipGraph`, `EntityResolver`, `JoinOrder`, `TwoHops`, `JoinRequests` | all-pairs shortest paths, greedy cover, exact reachability, join scope and meaning |
| indexes | `SemanticGraph`, `Coverage` | the graph store and the bitmaps agree with direct lookup |
| filters | `Filters` | SQL meaning of lowered filters, independence of order |

Loops, work lists and mutable records of the source are methods and classes here
(`RelationshipGraph`, `Decomposition`, `SemanticGraph`, the scanners, the greedy cover, the join
traversal, the depth loop). Recursive and rule-based code is functions. What SQL leaves to the engine
(arithmetic, the order of values, function calls) is the parameter `Engine`, so the theorems about
meaning hold for every engine. A row maps every name to a nullable value. Iteration over a hash map or
hash set is an arbitrary choice, so the results hold for every iteration order.

## Model

| member | source | states |
|---|---|---|
| Simplify.SimplifyCase | crates/semstrait-planner/src/simplify.rs:150-199 | the collecting loop with early exit returns the declarative fold of CASE: the first TRUE branch becomes the ELSE of the live branches before it, FALSE branches go, None when nothing applies |
| Simplify.Simplify | crates/semstrait-planner/src/simplify.rs:43-53 | the ten-iteration loop equals a single pass and its result is a fixed point, so the cap never cuts work short |
| Simplify.RuleAppliesExactly | crates/semstrait-planner/src/simplify.rs:64-199 | a rule applies to a node if and only if something of it is decided at compile time: a comparison or IN of literals, AND, OR or NOT of TRUE or FALSE, a CASE with TRUE or FALSE as a condition |
| Simplify.OnceIsNormal | crates/semstrait-planner/src/simplify.rs:56-61 | after one bottom-up pass nothing of that kind is left at any node of any tree |
| Simplify.SubstituteRemovesKnown | crates/semstrait-planner/src/simplify.rs:11-31 | substitution leaves exactly the columns without a known value, at any depth, and every entity reference |
| Simplify.GroundIsDecided | crates/semstrait-planner/src/simplify.rs:11-61 | literals and known columns under =, <>, IN, AND, OR, NOT and CASE end as one literal, and as TRUE or FALSE where the expression is a condition |
| Simplify.NormalIsFixed | crates/semstrait-planner/src/simplify.rs:43-61 | a tree in normal form is unchanged by a further pass |
| Simplify.CaseFoldIsNormal | crates/semstrait-planner/src/simplify.rs:150-199 | folding a CASE of normal parts gives a normal expression, hence no second pass is needed |
| Simplify.RuleShrinks | crates/semstrait-planner/src/simplify.rs:64-199 | every rule strictly shrinks the tree |
| SimplifyMeaning.EqualityFoldExact | crates/semstrait-planner/src/simplify.rs:86-92 | folding `=` or `<>` of any two literals agrees with SQL if and only if neither is NULL and they are not one number written as an integer and as a float; NaN equals nothing, an infinity itself |
| SimplifyMeaning.InFoldExact | crates/semstrait-planner/src/simplify.rs:127-147 | folding IN over literals agrees with SQL if and only if the list is empty, or the tested literal is not NULL and it is found or no item is NULL |
| SimplifyMeaning.CaseFoldMeaning | crates/semstrait-planner/src/simplify.rs:150-199 | CASE keeps its value and the priority of earlier runtime branches, for any conditions and results |
| SimplifyMeaning.NodeFoldExact | crates/semstrait-planner/src/simplify.rs:64-199 | one folding step of a well-typed node keeps its SQL value if and only if no NULL literal decides the fold |
| SimplifyMeaning.TransformRefines | crates/semstrait-ir/src/tree.rs:75-79 | a bottom-up rewrite keeps value and type of the whole tree when each of its steps does |
| SimplifyMeaning.SimplifyPreservesMeaning | crates/semstrait-planner/src/simplify.rs:43-61 | simplify keeps the SQL value and the type of an expression in every row when no NULL literal decides a fold of its pass |
| FoldExactness.FoldsKeepValueExactly | crates/semstrait-planner/src/simplify.rs:43-61 | every fold of the pass keeps the SQL value of the node it rewrites, in any one row, if and only if no NULL literal decides a fold of the whole tree |
| SimplifyMeaning.SubstituteThenSimplifyPreservesMeaning | crates/semstrait-planner/src/simplify.rs:11-61 | under the same condition on the substituted tree, simplify(substitute(e, known)) has the SQL value of e (TRUE, FALSE, NULL or other) in every row that agrees with the known values, and the type of e |
| NullSafety.NullSafeFoldsAreNullFree | crates/semstrait-planner/src/simplify.rs:64-199 | comparisons of columns, literals other than NULL and CASE with an ELSE meet that condition, whatever the known values are |
| SimplifyMeaning.FoldedNullChangesMeaning | crates/semstrait-planner/src/simplify.rs:88-92 | a well-typed expression that is NULL in every row and folds to TRUE: the NULL condition is needed |
| Exprs.EvalReadsOnlyNames | crates/semstrait-manifest/src/steps.rs:2480-2491 | an expression's value depends on a row only through the column and entity names collected from it |
| Exprs.TypeSoundness | crates/semstrait-planner/src/simplify.rs:94-120 | an expression of a type yields NULL or a value of that type, which is what makes the AND and OR rules valid |
| Resolver.ResolveMeaning | crates/semstrait-planner/src/resolver.rs:28-91 | resolution is a simultaneous renaming: on a physical row it has the value of the original on the row that reads a mapped name from its physical column and any other name from its own |
| Resolver.ResolvedNames | crates/semstrait-planner/src/resolver.rs:28-91 | the names in the resolved expression are exactly the physical columns of the mapped names and the names without a mapping |
| Resolver.ResolvedIsReady | crates/semstrait-planner/src/resolver.rs:28-91 | no entity reference and no guard is left anywhere in the resolved expression |
| Aggregations.WrapWithFilters | crates/semstrait-planner/src/decomposer.rs:149-172 | the loop builds CASE WHEN f1 AND ... AND fn THEN e ELSE NULL over the resolved filters, and leaves e alone without filters |
| Aggregations.WithFiltersMeaning | crates/semstrait-planner/src/decomposer.rs:149-172 | on each row the wrapped expression is the measure's value if every filter is TRUE, and NULL otherwise |
| Aggregations.DecomposeMeasure | crates/semstrait-planner/src/decomposer.rs:33-58 | one aggregate, distinct exactly for COUNT DISTINCT, over the wrapped resolved expression, of the type its set function returns, read back by the measure's name |
| Aggregations.ConditionalAggregation | crates/semstrait-planner/src/decomposer.rs:33-58 | for any rows and filters, SUM, COUNT, AVG, MIN, MAX and COUNT DISTINCT of the lowered CASE equal the same function of the expression over only the rows where every filter is TRUE |
| Decomposer.DecomposeMetric | crates/semstrait-planner/src/decomposer.rs:118-143 | the post-aggregation expression is the metric with nested metrics inlined; the aggregates are each reached measure exactly once and nothing else; it fails if and only if some chain of nested metrics is longer than the cap |
| Decomposer.InlinedExactly | crates/semstrait-planner/src/decomposer.rs:222-313 | the walk gives up if and only if there are more metrics than the cap, each referred to where the walk meets it in the one before, measures of the same name shadowing metrics |
| Decomposer.Decomposition.DecomposeExpr | crates/semstrait-planner/src/decomposer.rs:222-271 | every walk keeps the aggregates and the alias map in step, only extends them, and adds exactly the measures it reaches |
| Decomposer.Decomposition.ResolveLeaf | crates/semstrait-planner/src/decomposer.rs:274-313 | alias first, then measure, then metric within the cap, then plain column |
| MetricMeaning.MetricPlanMeaning | crates/semstrait-planner/src/decomposer.rs:118-143 | evaluating the post-aggregation expression over the aggregate results gives the value of the metric, for any rows, grouping columns, engine and resolver |
| MetricMeaning.ClosedExact | crates/semstrait-planner/src/decomposer.rs:269-270 | the result reads only its aggregates and plain columns if and only if the references below nodes the walk does not enter are harmless |
| MetricMeaning.WalkedOnlyIsClosed | crates/semstrait-planner/src/decomposer.rs:232-268 | metrics written with references, literals, binary operators and CASE hide no name from the walk |
| MetricMeaning.WalkedOnlyPlanIsClosed | crates/semstrait-planner/src/decomposer.rs:232-268 | their plans have the meaning of the metric as soon as no plain column is stored under the name of an aggregate |
| MetricMeaning.MeasureBelowCallIsLost | crates/semstrait-planner/src/decomposer.rs:269-270 | COALESCE of a measure is planned without an aggregate, and the plan is worth what the grouped row holds under that name instead of the measure's value |
| MetricMeaning.LostCountIsZero | crates/semstrait-planner/src/decomposer.rs:269-270 | on one row the plan of COALESCE of a row count returns 0 where the metric is 1 |
| MetricGraph.ComputeDepths | crates/semstrait-manifest/src/steps.rs:1277-1308 | the change-until-stable loop terminates on every acyclic graph with the unique solution |
| MetricGraph.UniqueSolution | crates/semstrait-manifest/src/steps.rs:1283-1308 | on an acyclic graph exactly one assignment gives each metric 0 without identifiers and else one more than its deepest other known dependency |
| MetricGraph.BuildMetricGraph | crates/semstrait-manifest/src/steps.rs:1204-1322 | a cycle error exactly on cyclic graphs; a depth error exactly when some depth exceeds 3; otherwise the unique depths |
| MetricGraph.DependencyIsShallower | crates/semstrait-manifest/src/steps.rs:1286-1298 | every dependency is strictly shallower than its metric |
| MetricGraph.DepthIsLongestPath | crates/semstrait-manifest/src/steps.rs:1283-1308 | the depth of a node is the greatest number of metrics with identifiers on a dependency path from it |
| MetricGraph.LongPathIsCyclic | crates/semstrait-manifest/src/steps.rs:1270-1275 | a dependency path with more nodes than the graph closes a cycle, so rejecting cycles bounds the loop |
| MetricOrder.LeafMeasures | crates/semstrait-manifest/src/acceleration.rs:751-772 | the stack search returns exactly the measures reachable through metric references, on cyclic input too |
| MetricOrder.Build | crates/semstrait-manifest/src/acceleration.rs:730-790 | None exactly without metrics; each metric lists its reachable measures once, ascending; the order is a permutation of the metrics by depth, those of one depth in their given order |
| Sorting.StringLeExactly | crates/semstrait-manifest/src/acceleration.rs:751-772 | the order of the listed measures: a prefix first, else by the first character that differs |
| MetricOrder.EvaluationOrderIsTopological | crates/semstrait-manifest/src/acceleration.rs:779-785 | with the depths of the depth loop, every metric follows every other metric it references |
| MetricBound.CompiledDepthSuffices | crates/semstrait-planner/src/decomposer.rs:298-310 | decomposition never hits its cap when the cap is at least the metric's compiled depth |
| MetricBound.NeverInlinedExactly | crates/semstrait-planner/src/decomposer.rs:298-310 | no cap is enough for a metric if and only if a chain of nested metrics comes back to one of them |
| MetricBound.PlanCompiledMetric | crates/semstrait-manifest/src/steps.rs:1310-1319 | compile, then plan, for any manifest: the plan fails exactly when metrics nest deeper than the cap, and never for a cap of 3 or more when the compiler accepts a graph that knows every nested reference |
| Identifiers.TokensExactly | crates/semstrait-manifest/src/steps.rs:3156-3157 | splitting an expression source yields exactly its maximal runs of letters, digits, underscores and hyphens |
| Identifiers.ExtractedExactly | crates/semstrait-manifest/src/steps.rs:3147-3162 | for every text, a name is among the extracted identifiers if and only if it is a maximal run of name characters in it and not dropped; of the identifiers, the words of the list and `inf`, `infinity`, `nan` are dropped |
| Identifiers.StopWordsExactly | crates/semstrait-manifest/src/steps.rs:3147-3154 | the words that are dropped, in any spelling |
| Identifiers.CompiledInterfaceExactly | crates/semstrait-manifest/src/steps.rs:1247-1268 | for any sources, read by parse_expr: the metric graph knows every reference that the planner follows if and only if each one is to another metric, a token of its source and not dropped |
| Identifiers.NamesAreTokens | crates/semstrait-manifest/src/steps.rs:3156-3157 | every name of a text of the grammar whose minus signs stand between white space is a token of it |
| Identifiers.SpacedNamesSurvive | crates/semstrait-manifest/src/steps.rs:1247-1268 | so for such sources a reference is known exactly when it is to another metric with a name that is not dropped |
| Identifiers.PlanHiddenCycle | crates/semstrait-manifest/src/steps.rs:1270-1319 | two metrics that are each other: decomposition fails on them for every cap, and the compiler accepts them if and only if one of the names is dropped, such as `count` |
| Identifiers.PlanPassThrough | crates/semstrait-manifest/src/steps.rs:1253-1262 | a metric whose expression is its own name, without a measure of that name, is accepted by the compiler, and decomposition fails on it for every cap |
| Identifiers.GluedMinus | crates/semstrait-manifest/src/steps.rs:3156 | in `a -b` the parser reads the name b and the extractor only `-b`, for any two names |
| Scanner.FindLastKeyword | crates/semstrait-manifest/src/steps.rs:2788-2814 | the scan returns the last whole-word, case-insensitive occurrence outside parentheses and quotes |
| Scanner.FindLastComparison | crates/semstrait-manifest/src/steps.rs:2839-2886 | the scan returns the last top-level comparison, two-character operators first, with its length and operator |
| Scanner.FindLastArithmetic | crates/semstrait-manifest/src/steps.rs:3014-3038 | the scan returns the last top-level + or - set off by a space, and the last * or / |
| Scanner.CheckBalanced | crates/semstrait-manifest/src/steps.rs:2945-2963 | the loop decides whether no prefix closes more parentheses than it opens and all are closed at the end |
| Scanner.SplitIsClosed | crates/semstrait-manifest/src/steps.rs:2759-2776 | splitting balanced, quote-closed text at any top-level operator leaves two balanced, closed halves |
| Scanner.KeywordSplitIsClosed | crates/semstrait-manifest/src/steps.rs:2817-2836 | the split chosen for OR and AND leaves two closed halves |
| Scanner.ComparisonSplitIsClosed | crates/semstrait-manifest/src/steps.rs:2886-2888 | the split chosen for a comparison leaves two closed halves |
| Scanner.ArithmeticSplitIsClosed | crates/semstrait-manifest/src/steps.rs:3040-3043 | the split chosen for arithmetic leaves two closed halves |
| Numerals.NumeralIsRead | crates/semstrait-manifest/src/steps.rs:2586-2591 | every number with a sign, a point or an exponent is read, as an operand and alone, as its value: the integer if it is written as one and fits 64 bits, otherwise all its digits as one number with the point moved over the decimals and by the exponent |
| Numerals.DecimalsExactly | crates/semstrait-manifest/src/steps.rs:2589-2591 | a decimal times ten to the number of its decimals is the number that its digits write without the point |
| Numerals.DigitsValueIsPlaceValue | crates/semstrait-manifest/src/steps.rs:2586-2591 | reading digits from the left gives each its place value, leading zeros included |
| Numerals.IntegerWithSign | crates/semstrait-manifest/src/steps.rs:2586-2588 | digits with or without a sign are an integer if and only if the signed value fits 64 bits; a minus sign negates it and a plus sign does nothing |
| Numerals.FloatWithSign | crates/semstrait-manifest/src/steps.rs:2589-2591 | the same for every text that is read as a float, infinities included |
| RawSql.GuardExactly | crates/semstrait-manifest/src/steps.rs:2598-2625 | a text is rejected as SQL if and only if one of fifteen keywords stands in it between characters that are no letters, digits or underscores, in any spelling |
| RawSql.RawSqlExactly | crates/semstrait-manifest/src/steps.rs:2603-2625 | a text of the grammar, in any layout, is rejected as SQL if and only if one of its names is a SQL keyword or one of its strings holds one; no keyword arises across tokens |
| CallTexts.TakenForCallExactly | crates/semstrait-manifest/src/steps.rs:2713-2740 | a text of the grammar is taken for one aggregation call if and only if it begins with a call and ends in a parenthesis, with no white space around it |
| CallTexts.CallIsRead | crates/semstrait-manifest/src/steps.rs:2713-2740 | a call of a set function on a name is read as that aggregate of the column, in any spelling and spacing |
| GrammarParsing.ArithmeticSplit | crates/semstrait-manifest/src/steps.rs:3014-3043 | arithmetic of two operands, with white space around everything, is split at a sign of the right operand right behind a space, else at a written + or -, else at a sign of the left operand right behind a space, else at the written operator |
| ParserTheorems.TextIsParsed | crates/semstrait-manifest/src/steps.rs:2939-3000 | precedence and associativity: every text of the grammar, with any white space between tokens, any spelling of its words and numbers in any notation, is read as its tree, operator levels tried from OR down to arithmetic; a compound text that is taken for a call is read as that call, and a sign right behind a space as the operator |
| ParserTheorems.ParsedIsDenotedExactly | crates/semstrait-manifest/src/steps.rs:3061-3109 | the tree is the denoted one if and only if no compound part begins with a call and ends in a parenthesis, no signed number stands right behind a space on the right of an arithmetic operator or at the start of a parenthesised product, and every parenthesised arithmetic operand is arithmetic or a bare call |
| ParserTheorems.ParseExprOnGrammar | crates/semstrait-manifest/src/steps.rs:2509-2595 | what parse_expr returns for every text of the grammar, the rejection, the whole-text parentheses and the white space around it included |
| ParserTheorems.ErrorsExactly | crates/semstrait-manifest/src/steps.rs:2509-2525 | any text at all is rejected as empty if and only if it is white space, and as SQL if and only if it mentions SQL |
| ParserTheorems.ParseExprExactly | crates/semstrait-manifest/src/steps.rs:2509-2595 | the denoted tree comes back if and only if no atom is SQL, the whole is not parenthesised, and the tree is the denoted one by the condition above |
| ParserTheorems.SignBehindSpace | crates/semstrait-manifest/src/steps.rs:3025-3043 | in `x * -5`, for any operands and operator, the sign is taken for the operator and everything before it for a name |
| ParserTheorems.PrintThenParse | crates/semstrait-manifest/src/steps.rs:2509-3110 | round trip: a tree over names, calls, 64-bit integers, strings, booleans and NULL, printed with compound operands and calls in parentheses and without a space before a negative operand of arithmetic, parses back to itself if and only if its arithmetic is over atoms, calls and arithmetic and its names and strings are free of SQL |
| ParserTheorems.UnsoundOperand | crates/semstrait-manifest/src/steps.rs:3064-3073 | parentheses around anything but arithmetic or a bare call are never seen through in an arithmetic operand |
| ParserTheorems.QuotientOfCalls | crates/semstrait-manifest/src/steps.rs:2713-2740 | the quotient of two calls, for any functions and names, is read as one call whose argument is the text between the outermost parentheses |
| Parentheses.ParenthesesExactly | crates/semstrait-manifest/src/steps.rs:2943-2967 | parentheses around any text with closed quotes and nesting change nothing if and only if the text balances when quoted parentheses are counted too, or it begins with a call and ends in a parenthesis, or it splits at an arithmetic operator and at no keyword, comparison, IS NULL or NOT |
| Parentheses.ParenInString | crates/semstrait-manifest/src/steps.rs:2943-2967 | the comparison `(x = ')')` is read as one reference |
| ParserTheorems.FloatWordsExactly | crates/semstrait-manifest/src/steps.rs:3098-3107 | an identifier is the same as an operand and alone if and only if it does not spell `inf`, `infinity` or `nan` in some case |
| Chains.ChainIsRead | crates/semstrait-manifest/src/steps.rs:2788-2836 | any texts that hide no looser operator, joined by any spelling and spacing of OR or AND, are read as a left-nested chain of what each is read as, unless the whole begins with a call and a later text ends in a parenthesis |
| Chains.OrOfAndsIsRead | crates/semstrait-manifest/src/steps.rs:2817-2836 | an unparenthesised OR of ANDs of such texts is read as a left-nested OR of left-nested ANDs, by the operand parser and by parse_expr |
| Chains.OrOfAndsIsParsed | crates/semstrait-manifest/src/steps.rs:2817-2836 | in particular for texts of the grammar from comparisons down, each read as its tree |
| RelationshipGraphs.BuildRelationshipGraph | crates/semstrait-manifest/src/steps.rs:1500-1570 | when no two dataset names clash, an entry from s to t exists exactly when t is another dataset reachable from s, it is a walk of minimum length using relationships either way, and no source overwrites another; in any case the last source's entries are right |
| RelationshipGraphs.RelationshipGraph.ShortestPathsFrom | crates/semstrait-manifest/src/steps.rs:1535-1567 | the breadth-first search from one source stores a shortest walk to everything reachable and touches no other source's entries |
| RelationshipGraphs.RelationshipGraph.Discover | crates/semstrait-manifest/src/steps.rs:1542-1553 | visiting the ends of one adjacency list keeps the queue sorted by distance and every stored path a walk |
| RelationshipGraphs.ExploredIsShortest | crates/semstrait-manifest/src/steps.rs:1541-1566 | once everything visited has been explored, recorded walks are no longer than any walk |
| RelationshipGraphs.KeysCollideExactly | crates/semstrait-manifest/src/acceleration.rs:826-828 | two different first names share some key if and only if one of them followed by NUL is a prefix of the other |
| RelationshipGraphs.PathKeyInjective | crates/semstrait-manifest/src/acceleration.rs:826-828 | two pairs whose first names do not clash in this way share a key only when equal |
| RelationshipGraphs.StorableExactly | crates/semstrait-manifest/src/steps.rs:1560-1567 | a map under these keys can hold the shortest paths of every list of relationships if and only if no two dataset names clash |
| RelationshipGraphs.OverwrittenEntry | crates/semstrait-manifest/src/steps.rs:1535-1567 | a graph of two clashing names in which the path of the first source is overwritten by the second |
| EntityResolver.FastPathExact | crates/semstrait-planner/src/entity_resolver.rs:194-200 | when the counted coverage equals the request length, the entity covers the request if and only if no requested field is counted in two categories |
| EntityResolver.DoubleCountingPassesForCover | crates/semstrait-planner/src/entity_resolver.rs:46-51 | an entity that passes the count without covering the request |
| EntityResolver.CoveredKeepsOrder | crates/semstrait-planner/src/entity_resolver.rs:131-153 | covered fields keep the order and the repetitions of the request |
| EntityResolver.RankedCandidates | crates/semstrait-planner/src/entity_resolver.rs:121-184 | one candidate for each entity that covers something, ordered so that none has fewer aggregates than a later one, with as many not fewer grouping fields, and with as many of both is complex only if the later one is |
| EntityResolver.LinkIsFirst | crates/semstrait-planner/src/entity_resolver.rs:226-243 | the link to a candidate is the stored path of the first selected entity that has one in either direction, the one towards the candidate before the other |
| Sorting.SortKeepsTies | crates/semstrait-planner/src/entity_resolver.rs:176-181 | the sort is stable: what the order does not tell apart keeps its order |
| EntityResolver.BestNext | crates/semstrait-planner/src/entity_resolver.rs:215-252 | the scan returns the first linked candidate whose new coverage no linked candidate exceeds, with its stored path; None only when no linked candidate adds anything |
| EntityResolver.CoverGreedily | crates/semstrait-planner/src/entity_resolver.rs:202-280 | the loop ends with the request covered, each choice of greatest new coverage among linked entities and best ranked among those, and the join path strictly ascending and equal to the union of the links; or it stops with no linked entity able to add anything |
| EntityResolver.FindCoveringEntities | crates/semstrait-planner/src/entity_resolver.rs:110-281 | each error exactly in its case; success is a greedy selection whose first entity no other provider beats in aggregates, then grouping fields, then being a simple dataset |
| EntityResolver.CoverExact | crates/semstrait-planner/src/entity_resolver.rs:194-280 | a successful cover covers the whole request if and only if the single-entity shortcut, when taken, counted no field in two categories |
| EntityResolver.NoMoreEntitiesThanFields | crates/semstrait-planner/src/entity_resolver.rs:211-261 | every selected entity adds a new field, so there are at most as many as distinct requested fields |
| EntityResolver.LinksAreWalks | crates/semstrait-planner/src/entity_resolver.rs:226-243 | with the stored paths of the relationship graph every link is a shortest walk to an earlier entity and lies in the join path |
| JoinOrders.ComputeJoinOrder | crates/semstrait-planner/src/ad_hoc_join.rs:162-224 | succeeds if and only if every other entity is connected to the anchor by join-path relationships within the selected entities; the steps are a permutation, each attached to the anchor or an earlier step by the first relationship of the join path that does so, on the side `reversed` names and forwards where both sides fit; an error lists exactly the unconnected entities |
| JoinOrders.BlockedIsDisconnected | crates/semstrait-planner/src/ad_hoc_join.rs:206-220 | when the traversal is blocked nothing left over is connected to the anchor |
| JoinOrders.ScopedCoverIsJoinable | crates/semstrait-planner/src/ad_hoc_join.rs:67-72 | a cover whose links leave only selected entities always has a join order |
| JoinOrders.DirectCoverIsJoinable | crates/semstrait-planner/src/ad_hoc_join.rs:67-72 | with the graph's shortest paths, a cover linked by single relationships always has a join order |
| JoinOrders.JoinPathInRange | crates/semstrait-planner/src/ad_hoc_join.rs:182-183 | the join path of a cover indexes existing relationships only |
| TwoHops.CoverIsTwoHops | crates/semstrait-planner/src/entity_resolver.rs:202-280 | for orders, stores and regions in a row and any stored shortest paths, every cover of a field of orders and a field of regions selects these two and joins them through stores |
| TwoHops.RegionsAreCutOff | crates/semstrait-planner/src/ad_hoc_join.rs:209-220 | within the two selected entities they are not connected |
| TwoHops.PlanTwoHopQuery | crates/semstrait-planner/src/ad_hoc_join.rs:67-72 | from the manifest to the failure: the graph is built, the cover succeeds, and the join order reports regions as unreachable |
| JoinRequests.BuildEntityRequests | crates/semstrait-planner/src/ad_hoc_join.rs:231-323 | one request per entity: its own fields first, then exactly its missing join keys, each once; extras are the added keys the query did not select; filters, order and limit are cleared |
| JoinRequests.RequestHolds | crates/semstrait-planner/src/ad_hoc_join.rs:252-303 | a request's fields are exactly the covered fields and the join keys; nothing requested is dropped and no duplicate is added |
| JoinRequests.JoinKeepsMatchingExactly | crates/semstrait-planner/src/ad_hoc_join.rs:329-353 | the condition, over the concatenated columns of both sides, keeps exactly the pairs of rows that agree on every column pair without NULL, if and only if no column that stands on the right has a namesake on the left; in either direction |
| JoinRequests.HiddenColumnIsNotTested | crates/semstrait-planner/src/ad_hoc_join.rs:329-353 | with such a namesake the condition is TRUE on a pair of rows that do not match |
| JoinRequests.SharedKeyIsNotTested | crates/semstrait-planner/src/ad_hoc_join.rs:329-353 | the key `customer_id = customer_id` compares the left column with itself |
| JoinRequests.JoinScope | crates/semstrait-planner/src/ad_hoc_join.rs:162-353 | in every step the near side is the anchor or an earlier step, and each left column is in that entity's request, each right column in the step entity's own |
| JoinRequests.ConditionInScope | crates/semstrait-planner/src/ad_hoc_join.rs:329-353 | the condition mentions no column outside the two requests |
| SemanticGraphs.SemanticGraph.AddDataset | crates/semstrait-manifest/src/acceleration.rs:905-915 | adds a node once per name, keeps every earlier node index, and returns the name's node |
| SemanticGraphs.SemanticGraph.AddField | crates/semstrait-manifest/src/acceleration.rs:918-928 | adds a field node once per name, keeps every earlier node index; the first type stays |
| SemanticGraphs.SemanticGraph.AddJoin | crates/semstrait-manifest/src/acceleration.rs:931-937 | records the join between the two dataset nodes, adding missing ones without a kind |
| SemanticGraphs.SemanticGraph.AddProvidesField | crates/semstrait-manifest/src/acceleration.rs:940-946 | records that the dataset provides the field, adding missing nodes |
| SemanticGraphs.SemanticGraph.FieldProviders | crates/semstrait-manifest/src/acceleration.rs:949-960 | walking all incoming edges finds exactly the recorded providers |
| SemanticGraphs.SemanticGraph.DatasetFields | crates/semstrait-manifest/src/acceleration.rs:963-974 | walking all outgoing edges finds exactly the recorded fields; join edges do not leak |
| SemanticGraphs.OneNodePerName | crates/semstrait-manifest/src/acceleration.rs:905-928 | each mentioned dataset name and each mentioned field name has exactly one node |
| SemanticGraphs.FirstTypeWins | crates/semstrait-manifest/src/acceleration.rs:918-946 | after any run a declared field has the type of its first declaration |
| SemanticGraphs.FirstKindWins | crates/semstrait-manifest/src/acceleration.rs:905-946 | after any run a mentioned dataset has the kind of its first mention |
| SemanticGraphs.ProvidesExactlyDeclared | crates/semstrait-manifest/src/acceleration.rs:931-946 | after any run a dataset provides a field exactly when some call declared it |
| SemanticGraphs.ProvidersAfter | crates/semstrait-manifest/src/acceleration.rs:893-974 | for any run of calls, both lookups return exactly the declared pairs |
| Coverage.FromColumnMapping | crates/semstrait-manifest/src/acceleration.rs:259-311 | the four maps together hold exactly what the explicit mapping says; for physical columns the last entry wins |
| Coverage.ContainsExactlyMapped | crates/semstrait-manifest/src/acceleration.rs:315-324 | a name is found exactly when it is a key, or a sub-name of an anchored key, of the explicit mapping |
| Coverage.BuildIndex | crates/semstrait-manifest/src/acceleration.rs:511-550 | bit positions identify the mappable fields and each dataset's bit is set exactly for the fields its binding maps |
| Coverage.BuildFieldMask | crates/semstrait-manifest/src/acceleration.rs:553-561 | the mask holds exactly the bits of the requested known names |
| Coverage.CoversByMask | crates/semstrait-manifest/src/acceleration.rs:511-561 | the mask is a subset of a dataset's bits if and only if its explicit mapping maps every requested known name |
| Filters.QueryFilterToExpr | crates/semstrait-planner/src/planner.rs:291-364 | each operator's predicate shape, and each error exactly when values are missing |
| Filters.OrChainIsIn | crates/semstrait-planner/src/planner.rs:321-332 | the OR chain is SQL's IN, NULLs included |
| Filters.AndChainIsNotIn | crates/semstrait-planner/src/planner.rs:333-346 | the AND chain is the three-valued negation of IN |
| Filters.LoweringKeepsMeaning | crates/semstrait-planner/src/planner.rs:291-374 | every lowered filter is TRUE, FALSE or NULL exactly where the SQL predicate over the filter's own values is |
| Filters.NullInNoneOfKeepsNothing | crates/semstrait-planner/src/planner.rs:333-346 | a NOT IN list that holds NULL keeps no row |
| Filters.InjectUserFilters | crates/semstrait-planner/src/planner.rs:277-288 | one filter node per filter, in order; the error is that of the first malformed filter |
| Filters.StackKeepsAcceptedRows | crates/semstrait-planner/src/planner.rs:277-288 | the stack keeps exactly the rows on which every filter is TRUE, in their order, with the root's schema |
| Filters.FilterOrderIsIrrelevant | crates/semstrait-planner/src/planner.rs:277-288 | neither order nor repetition of filters changes the rows kept |

## Where the code does less than one may expect

Each of these is proved, for a concrete input or for the whole family that fails, beside the exact
condition under which the code is right.

- `simplify` compares literals with two-valued equality, so a fold that a NULL literal decides changes the
  SQL value (`SimplifyMeaning.FoldedNullChangesMeaning`, condition in `NodeFoldExact`), and `1 = 1.0` folds to
  FALSE (condition in `EqualityFoldExact`).
- `decompose_metric` copies nodes other than references, literals, binary operators and CASE unchanged, so
  a measure below NOT, IS NULL or a function call gets no aggregate
  (`MetricMeaning.MeasureBelowCallIsLost`, condition in `ClosedExact`).
- An arithmetic operand in parentheses that is not arithmetic, such as `(a = b) + 1`, becomes a reference
  named by the whole text; `parse_expr` does not drop parentheses around the whole expression
  (`ParserTheorems.UnsoundOperand`, condition in `ParseExprExactly`).
- A compound text that begins with a call and ends in a parenthesis, such as `SUM(a) / SUM(b)`, is read as one
  call of the text in between (`ParserTheorems.QuotientOfCalls`, condition in `CallTexts.TakenForCallExactly`
  and `ParsedIsDenotedExactly`; with the calls in parentheses it is read as written, `PrintThenParse`).
- A signed number right behind a space is not read as signed on the right of an arithmetic operator, such as
  in `x * -5`, or at the start of a product in parentheses, such as in `( -5 * x) + 1`
  (`ParserTheorems.SignBehindSpace`, condition in `ParsedIsDenotedExactly`; without the space it is, `PrintThenParse`).
- A quoted parenthesis counts when outer parentheses are dropped, so `(x = ')')` becomes one reference
  (`Parentheses.ParenInString`, condition in `ParenthesesExactly`).
- `inf`, `infinity` and `nan` are floats as operands and names alone (`ParserTheorems.FloatWordsExactly`).
- The identifiers of the metric graph leave out names such as `count`, `end` or `nan` and names glued to a
  minus sign, so a cycle through them is not seen (`Identifiers.PlanHiddenCycle`, `CountIsDropped`, `GluedMinus`,
  condition in `ExtractedExactly` and `CompiledInterfaceExactly`).
- A metric that wraps the column of its own name is accepted, and decomposition follows its name back to
  itself until the cap is exceeded (`Identifiers.PlanPassThrough`; exactly which metrics can be decomposed, in
  `MetricBound.NeverInlinedExactly` and `Decomposer.InlinedExactly`).
- The single-entity shortcut of `find_covering_entities` counts a field once per category, so a field that
  is both a measure and a metric can stand in for an uncovered one
  (`EntityResolver.DoubleCountingPassesForCover`, condition in `FastPathExact`).
- The cover may link entities through a dataset that is not selected, and then `compute_join_order` fails
  (`TwoHops.PlanTwoHopQuery`, condition in `JoinOrders.ComputeJoinOrder`).
- The join condition names its columns without their side. Where such a name means the left column first, as
  in the concatenated schema of the plan, a key of the same name on both sides is compared with itself and
  every pair of rows is kept; the SQL emitter writes the bare name
  (crates/semstrait-adapter/src/sql/emitter.rs:154-170), which an engine may reject as ambiguous instead
  (`JoinRequests.SharedKeyIsNotTested`, condition in `JoinKeepsMatchingExactly`).
- Path keys of different datasets collide when one name followed by NUL begins the other
  (`RelationshipGraphs.OverwrittenEntry`, condition in `KeysCollideExactly` and `StorableExactly`).

Where comments and code disagree the model follows the code: entities without aggregate coverage are not
skipped when aggregates are requested (crates/semstrait-planner/src/entity_resolver.rs:106); the join path
is the union of one link per later entity, not of the paths between all pairs
(crates/semstrait-planner/src/entity_resolver.rs:80-82); an underscore is not a word boundary
(crates/semstrait-manifest/src/steps.rs:2781-2784); a hyphen does not split an identifier
(crates/semstrait-manifest/src/steps.rs:1253-1258 against 3156).

## Left out

- SimplifyPreservesMeaning: the condition is sufficient for the value of the whole tree, since a wrong inner fold can be masked by its context; fold by fold it is exact, in FoldsKeepValueExactly.
- ClosedExact: for names that stand for themselves; with a physical renaming WalkedOnlyPlanIsClosed gives a sufficient condition.
- ScopedCoverIsJoinable: sufficient only, since other relationships of the join path may happen to connect the entities; the exact condition is in ComputeJoinOrder.
- TextIsParsed: the grammar has identifiers, references in braces, calls of a set function on a name, numbers, strings without quotes whose parentheses balance, truth values, NULL and operators; calls of other arguments are parsed by the model but are not in the grammar. For unbalanced strings see ParenthesesExactly.
- NumeralIsRead: a float is its exact value; rounding to 64 bits and overflow to infinity are not modelled.
- LoweringKeepsMeaning: NaN and infinite filter values are read as NULL by the evaluation, and a number is its exact value; rounding is not modelled.
- BuildMetricGraph: the graph library's cycle test is taken by its contract.
- BuildEntityRequests: requests are matched to join steps by entity name; the pairing by position in crates/semstrait-planner/src/ad_hoc_join.rs:106-108 is not modelled.
- BuildRelationshipGraph: the map from dataset names to indices is not modelled.
- The generic expression rewriter and walker (`Expr::transform`, `Expr::walk`) live in a crate that is not part of this model; rewriting is bottom-up as crates/semstrait-ir/src/tree.rs:75 says.
- Non-ASCII text, where byte offsets and characters differ.
- The legacy embedded aggregation path, and AVG or SUM with DISTINCT.
- Planners per data kind, the SQL and Substrait emitters, catalogs, storage and services: input and output, or code outside the algorithms above.
- Constraint checks, grain order, string forms of types, additivity and the optimizer: one-branch or table facts.
