# A verified model of Velm's core

Velm is a low-code platform: apps are described by declarative definitions, their tables are physical tables of a database, and users list, map and edit records through generic pages. This project models five parts of it in Dafny and proves what each is for.

1. **List queries** (`TableQueryTokens`, `TableQueryParser`, `TableQueryPrinter`, `TableQueryPhrases`, `LikePatterns`, `TableQuerySql`, `TableQueryPlaceholders`, `TableQueryReader`, `TableQueryWhere`, `ListQueryMeaning`). The text of a list filter is tokenized, parsed and compiled to a parameterised SQL clause. The grammar, the meaning of a query tree under three-valued logic and a reader of SQL text are defined independently of the code: the emitted text, read on its own, selects exactly the rows that the filter asks for.
2. **Schema publication** (`AppModel`, `TableInheritance`, `DefinitionValidation`, `DefinitionNormalization`, `PhysicalSchema`, `TableReconciliation`, `SchemaPublication`, `PublicationTransaction`, `PublicationSafety`, `PublicationSuccess`, `AppLifecycle`, `DraftSurvival`, `OperationEffects`, `AppStore`, `SchemaInStep`). A definition is normalised, validated and resolved through single inheritance across apps, then reconciled with the physical schema inside a transaction, which succeeds under an exact condition on the data and keeps what the definition keeps. Drafts, publications, builder operations and record writes are the steps of one state machine whose invariants hold over every run.
3. **The relationship map** (`RelationshipSearch`, `RelationshipGraph`). A layered search labels every node with its shortest distance and its preferred level; the result is filtered by visibility and assembled into a closed, balanced map.
4. **Paging through readable rows** (`SecureListPage`). One pass with a sliding window and an early exit answers as "filter, then slice".
5. **Rules, triggers and links** (`StableSorting`, `SecurityRules`, `TriggerWriteSet`, `MethodLinks`). First-match security rules and the detection of dead ones, the write set that a before-write trigger leaves behind, and the static check of method calls against their resolution at run time.

`Common` and `Text` hold result types and the string operations. `dafny verify dfyconfig.toml` checks the whole project.

## How the code is modelled

- Code that works by steps is a method with loops or a class whose methods change its fields: the tokenizer, the parser, the argument list, the search, the transaction, the stored app, the write set. Each is proved equal to a specification function or predicate, and the lemmas are about that specification.
- A Go map that is walked in unspecified order is walked here by picking any remaining key, or through a parameter `order`; the results are proved for every choice.
- The database is a map from table names to columns and rows, with a row holding its non-null cells; a transaction is a copy that is committed as a whole or dropped. Query answers, standard-library conversions, collation, auto-number formats, scripts, conditions and role membership are parameters, constrained only where a predicate says so (`Library`, `AnswersQuery`, `LawfulNumbering`, `LawfulPreparation`, `SteadyPreparation`, `LawfulCodec`).
- A step's `accepted` flag stands for every check outside the model that may refuse an operation; the properties hold whatever it says.

## Where the code does not do what one might expect

Each of these is a lemma with a concrete input or an exact condition.

- A `!` that is not followed by `=` keeps the tokenizer in its loop for ever (`TokenizerHaltsIff`, `LoneBangExample`).
- The filter clause is numbered from 1 although a route filter has already used `$1`. The last argument is then used by no placeholder, so the database refuses every filter text on a page with a route filter (`AssembledAcceptedIff`, `PreferencesFilterExample`).
- A `*` pattern is a glob only when the value has no `%`, `_` or backslash (`ILikeIsGlobIff`, `UnderscoreExample`).
- A page past the end shows the last `size` readable rows, which is the last page only when pages are full or there is one page (`PastEndRefinesIff`, `PastEndExample`).
- The SET list of an UPDATE is taken from the text map alone, while a trigger's record leaves its nulls in the null map only: clearing a field of an existing record is not stored (`UpdateStoresRecordIff`, `ClearedFieldExample`).
- Before-write triggers that change nothing, or their absence, still change a write: a cleared field keeps its old value, a stored text that was not submitted is trimmed, and a stored instant that was not submitted makes the update fail (`QuietTriggersKeepUpdateIff`, `QuietUpdateRunsIff`, `QuietClearExample`, `UnsubmittedTextExample`, `StoredInstantExample`).
- A publication rewrites stored auto-numbers that are not in the form of the column's prefix and fills in missing ones (`PublishKeepsNumbersIff`, `RewrittenNumberExample`).
- A column that moves to a parent table loses all its values, although the table still has it by inheritance (`PublishLosesDroppedIff`, `MovedColumnExample`); an auto-number is issued anew (`PublishReissuesDropped`).
- The call of a trigger declared on a table is not checked against any method (`TableTriggerExample`).
- The target test of inheritance looks the chain up in published definitions, the column resolution in drafts first, so a table can inherit from a parent that it does not count as extending (`DraftedParentExample`).
- The scope key of a security rule joins its parts with NUL characters. That is sound because the operation has been checked before, being a capital letter that no lower-cased table name can contain (`ScopeKeyInjective`).
- An app without a namespace other than the base app does not own a physical schema: its publication leaves tables alone although the builder creates them (`NonOwningPublishIff`). No such app is ever created (`NewAppOwns`).
- A builder operation saves the edited publication as the draft too, so what an unpublished draft holds beside it is lost (`DraftSurvivesIff`, `LostDraftExample`).
- The rules of a page are validated without a table, and only rules that name none are loaded for it: a rule that names a table is accepted and decides nothing, and a page with no other rule and no gating role is open to everyone (`AcceptedRulesCanDecideIff`, `PageUnprotectedIff`, `PageRuleExample`).
- A call is refused although it would resolve when only the draft of a dependency that was never published has the method (`RefusedButResolvesIff`).

## Model

| member | source | states |
|---|---|---|
| `TableQueryTokens.TokenizerHaltsIff` | cmd/server/table_query.go:193-237 | The scanning loop stops on exactly the inputs in which every `!` met outside a quoted token is followed by `=`; on every other input it runs for ever |
| `TableQueryTokens.LoneBangExample` | cmd/server/table_query.go:222-235 | Concrete input `a!` on which the loop never stops |
| `TableQueryTokens.StepKeepsPairing` | cmd/server/table_query.go:194-236 | Each pass advances strictly while the pairing of `!` holds, keeps that pairing, and never repairs a lone `!` |
| `TableQueryTokens.StepMovesToken` | cmd/server/table_query.go:194-236 | The token list of an input is the token of one pass followed by the token list of the rest |
| `TableQueryTokens.TokensEndInEof` | cmd/server/table_query.go:238-239 | A token list holds one EOF, and it is the last token |
| `TableQueryTokens.TokenizeTableQuery` | cmd/server/table_query.go:191-240 | The index loop computes the token list of every input on which it can stop, or fails exactly where a quote is not closed |
| `TableQueryTokens.ScanLexeme` | cmd/server/table_query.go:195-236 | One pass of the loop appends the token, and moves the index by the length, that the remaining text determines; it fails exactly on an unclosed quote |
| `TableQueryTokens.ScanQuoted` | cmd/server/table_query.go:211-221 | A quoted literal is the text up to the next quote of the same kind |
| `TableQueryTokens.ScanWord` | cmd/server/table_query.go:223-235 | A word runs to the next delimiter or logical operator |
| `TableQueryParsing.ParserAcceptsGrammar` | cmd/server/table_query.go:272-377 | The parser accepts a token list exactly when it derives from Or = And, then any number of or-operators each with an And; And = Prim, then any number of and-operators each with a Prim; Prim = a bracketed Or, or words, a comparison and words; followed by EOF, and it returns the derived, left-associative tree |
| `TableQueryParsing.DerivationUnique` | cmd/server/table_query.go:276-306 | No token list derives two trees: the grammar is unambiguous, with `&&` binding tighter than the or-operator |
| `TableQueryParsing.OrSound` | cmd/server/table_query.go:276-290 | Whatever parseOr returns is derived by the Or rule from the tokens it consumed |
| `TableQueryParsing.AndSound` | cmd/server/table_query.go:292-306 | Whatever parseAnd returns is derived by the And rule from the tokens it consumed |
| `TableQueryParsing.PrimarySound` | cmd/server/table_query.go:308-322 | Whatever parsePrimary returns is a bracketed Or or a condition derived from the tokens it consumed |
| `TableQueryParsing.OrReaches` | cmd/server/table_query.go:276-290 | From a derivation by the Or rule up to a position, parseOr is in its loop at that position with the derived tree in hand |
| `TableQueryParsing.AndReaches` | cmd/server/table_query.go:292-306 | From a derivation by the And rule up to a position, parseAnd is in its loop at that position with the derived tree in hand |
| `TableQueryParsing.PrimaryComplete` | cmd/server/table_query.go:308-322 | parsePrimary returns every tree the Prim rule derives, at the same end position |
| `TableQueryParsing.ConditionSound` | cmd/server/table_query.go:324-377 | A returned condition is a run of column words, a comparison and a run of value words |
| `TableQueryParsing.ConditionComplete` | cmd/server/table_query.go:324-377 | Every derivable condition is returned, and its column and value runs are maximal |
| `TableQueryParsing.TableQueryParser.constructor` | cmd/server/table_query.go:152-152 | A parser starts at the first token of its list |
| `TableQueryParsing.TableQueryParser.PeekToken` | cmd/server/table_query.go:257-262 | Beyond the end the parser sees EOF |
| `TableQueryParsing.TableQueryParser.Next` | cmd/server/table_query.go:264-270 | The position advances by one, and never past the end of the list |
| `TableQueryParsing.TableQueryParser.ParseExpression` | cmd/server/table_query.go:272-274 | The imperative parser returns what the recursive reading of the tokens returns and stops where it stops |
| `TableQueryParsing.TableQueryParser.ParseOr` | cmd/server/table_query.go:276-290 | Loop and recursion agree with the recursive reading of the Or rule; termination by the tokens left |
| `TableQueryParsing.TableQueryParser.ParseAnd` | cmd/server/table_query.go:292-306 | Loop and recursion agree with the recursive reading of the And rule |
| `TableQueryParsing.TableQueryParser.ParsePrimary` | cmd/server/table_query.go:308-322 | Brackets and conditions as the recursive reading has them, with the error for a missing `)` |
| `TableQueryParsing.TableQueryParser.ParseCondition` | cmd/server/table_query.go:324-377 | Column, operator and value of the condition at the position, or the error the reading gives |
| `TableQueryParsing.TableQueryParser.ParseColumnWords` | cmd/server/table_query.go:325-339 | The column loop; its look-ahead at the token after the current one is in bounds in every reachable state |
| `TableQueryParsing.ParseTableQuery` | cmd/server/table_query.go:152-159 | A query is a whole token list: a tree followed by EOF, or a syntax error |
| `TableQueryPrinter.ReadPrinted` | cmd/server/table_query.go:191-240 | Tokenizing the printed text of a tree gives exactly its tokens |
| `TableQueryPrinter.PrintedDerives` | cmd/server/table_query.go:276-377 | The tokens of a printed tree derive that tree |
| `TableQueryPrinter.RoundTrip` | cmd/server/table_query.go:191-377 | Printing any tree with identifier columns and quoted, trimmed values, then tokenizing and parsing, gives the same tree back |
| `TableQueryPhrases.WordTokenIs` | cmd/server/table_query.go:230-234 | The token of a word has exactly its text, and is an identifier exactly when it is spelled like one |
| `TableQueryPhrases.PhraseTokenizes` | cmd/server/table_query.go:191-240 | Unquoted column words, a comparison and unquoted value words, as `status = in progress`, become one token each, in order |
| `TableQueryPhrases.PhraseReads` | cmd/server/table_query.go:324-377 | Such a phrase parses to one condition whose column and value are the words in order, with single blanks between them |
| `LikePatterns.LikeIsGlob` | cmd/server/table_query.go:452-453 | For a value without `%`, `_` and backslash, LIKE on the translated pattern is `*` matching |
| `LikePatterns.Distinguisher` | cmd/server/table_query.go:452-453 | For every other value some text is matched by one and not by the other |
| `LikePatterns.ILikeIsGlobIff` | cmd/server/table_query.go:452-458 | ILIKE on the translated value agrees with case-blind `*` matching on every text if and only if the value has no `%`, `_` or backslash |
| `LikePatterns.UnderscoreExample` | cmd/server/table_query.go:452-458 | `a_*` also finds `abc` |
| `TableQuerySql.CompileNumbersInOrder` | cmd/server/table_query.go:379-469 | Existing arguments stay a prefix; each condition appends one argument; the i-th leaf of the clause is the i-th condition, compiled against its own argument |
| `TableQuerySql.KthLeafUsesKthPlaceholder` | cmd/server/table_query.go:430-465 | The k-th leaf from the left uses the k-th new placeholder |
| `TableQuerySql.ConditionPreservesMeaning` | cmd/server/table_query.go:411-469 | The compiled condition has, on every row, the three-valued truth of the condition |
| `TableQuerySql.CompilePreservesMeaning` | cmd/server/table_query.go:379-409 | Under its own arguments or any extension of them the clause has, on every row, the three-valued truth of the tree |
| `TableQuerySql.OperatorIsKept` | cmd/server/table_query.go:411-480 | A compiled condition compares with the operator of the condition; LIKE appears only for a `*` under `=` or `!=`, negated exactly for `!=` |
| `TableQuerySql.BoolSpellings` | cmd/server/table_query.go:530-539 | The spellings of true and false, whatever the case and the blanks around them |
| `TableQuerySql.ArgumentList.constructor` | cmd/server/table_query.go:161-161 | The argument list of a compilation starts empty |
| `TableQuerySql.ArgumentList.Append` | cmd/server/table_query.go:429-429 | An argument is added at the end, so its placeholder is the new length |
| `TableQuerySql.BuildTextConditionSql` | cmd/server/table_query.go:450-469 | The text emitted and the argument appended for a text condition are those of the compiled condition |
| `TableQuerySql.BuildConditionSql` | cmd/server/table_query.go:411-448 | The text and argument of a condition by column kind, or the error, with the shared list unchanged on an error; `OperatorIsKept` and `TableQueryReader.RenderReads` say what that text is |
| `TableQuerySql.BuildStructuredQuerySql` | cmd/server/table_query.go:379-409 | The recursion over the shared argument list emits the rendered clause of the compiled tree and leaves exactly its arguments; `TableQueryReader.CompiledTextMeaning` gives the meaning of that text |
| `TableQueryPlaceholders.CompiledPlaceholders` | cmd/server/table_query.go:379-469 | The emitted text of any compiled query uses exactly the placeholders of the arguments it added, each at least once |
| `TableQueryReader.RenderReads` | cmd/server/table_query.go:379-480 | A reader of clause text that knows brackets, AND, OR, CAST, LOWER, ILIKE and the six SQL signs, but nothing of the compiler, reads a rendered clause of quoted columns back as the same clause, whatever stands behind it |
| `TableQueryReader.CompiledIsReadable` | cmd/server/table_query.go:379-469 | Whatever compiles over quoted columns can be read that way |
| `TableQueryReader.CompiledTextMeaning` | cmd/server/table_query.go:379-480 | The emitted text, read by that reader under its arguments, has on every row the three-valued truth of the query tree |
| `TableQueryReader.GreaterExample` | cmd/server/table_query.go:430-480 | `amount>10` on a numeric column emits `"amount" > $1` with the argument 10 |
| `TableQueryWhere.LooksLikeStructuredQuery` | cmd/server/table_query.go:178-189 | The loop over the column map, in any order, decides whether a logical operator, a mentioned column or a comparison character occurs |
| `TableQueryWhere.BuildTableWhereClause` | cmd/server/table_query.go:131-167 | An empty filter, a plain text and a structured query give the clause and arguments of each, errors included |
| `TableQueryWhere.PrintedFilterCompilesToItsTree` | cmd/server/table_query.go:148-166 | The filter text of any printable tree is recognised as structured and yields the clause compiled from that very tree |
| `TableQueryWhere.ColumnIsFound` | cmd/server/table_query.go:137-142 | A column is found under the keys of its name and caption, unless a later column takes them |
| `TableQueryWhere.OnlyKeysFind` | cmd/server/table_query.go:137-142 | Nothing else finds a column |
| `TableQueryWhere.AssembleListQuery` | cmd/server/handleTableView.go:138-173 | The statements of the handler assemble the WHERE text and the argument list of the request, with the fallback clause for a rejected filter |
| `TableQueryWhere.FilterPlaceholders` | cmd/server/table_query.go:131-176 | The clause of any filter text, plain, structured or rejected, uses exactly the placeholders 1 to the number of its own arguments, of which there is at least one; with no column to search it uses none |
| `TableQueryWhere.AssembledPlaceholders` | cmd/server/handleTableView.go:145-168 | The assembled clause uses the placeholders of the route filter and of the filter text, both counted from 1 |
| `TableQueryWhere.AssembledAcceptedIff` | cmd/server/handleTableView.go:145-201 | The database takes the assembled query, every argument being used by a placeholder and every placeholder having an argument, if and only if there is no filter text, or no route filter and some column to search; whatever it takes reads its own arguments |
| `TableQueryWhere.PageQueryAcceptedIff` | cmd/server/handleTableView.go:208-214 | The page query with its LIMIT and OFFSET placeholders is taken exactly when the count query before it is |
| `TableQueryWhere.AssembledMeaning` | cmd/server/handleTableView.go:145-173 | Without a route filter a structured filter is taken by the database, and under the arguments of the assembled query its clause has on every row the truth of the query tree |
| `TableQueryWhere.PreferencesFilterExample` | cmd/server/handleTableView.go:346-349 | On the preferences page the filter `user_id="<own id>"` would read an equal value, and is refused |
| `ListQueryMeaning.PlainReads` | cmd/server/table_query.go:169-176 | The text of a plain search is read as the bracketed disjunction of one ILIKE on `$1` for each searched column |
| `ListQueryMeaning.PlainMeaning` | cmd/server/table_query.go:169-176 | A plain search finds a row exactly when some searched column that is not null matches the pattern |
| `ListQueryMeaning.FilterMeaning` | cmd/server/handleTableView.go:155-168 | The filter clause is true exactly of the rows that satisfy the query tree, or that contain the searched text when the filter is plain or was rejected |
| `ListQueryMeaning.JoinedReads` | cmd/server/handleTableView.go:170-173 | Clauses joined by AND are read as those clauses, in order |
| `ListQueryMeaning.AssembledReads` | cmd/server/handleTableView.go:138-173 | The assembled text is read as WHERE with the deletion test, the route filter and the filter clause joined by AND, each there exactly when asked for |
| `ListQueryMeaning.ListSelects` | cmd/server/handleTableView.go:138-201 | Whatever query the database takes, its text selects under its arguments exactly the rows that are not hidden as deleted, have the value of the route filter and satisfy the filter |
| `ListQueryMeaning.PageQueryReads` | cmd/server/handleTableView.go:208-226 | The page query selects by the same parts and ends with the sort column, its direction and the placeholders of page size and offset, which are its last two arguments |
| `RelationshipSearch.PreferLevelIsStrictTotalOrder` | cmd/server/map_view.go:369-377 | "Smaller absolute value, then smaller value" is irreflexive, transitive and total |
| `RelationshipSearch.RoundComplete` | cmd/server/map_view.go:240-253 | After a round the labels are exact up to one more step, the new frontier is exactly the layer at that distance, and every new level is the preferred candidate |
| `RelationshipSearch.SaturatedSearch` | cmd/server/map_view.go:233-233 | Once a layer is empty no further node is within reach, so leaving the loop early loses nothing |
| `RelationshipSearch.RoundCollects` | cmd/server/map_view.go:242-242 | After a round the collected rows are those with an end nearer than the new depth |
| `RelationshipSearch.RoundDiscovers` | cmd/server/map_view.go:246-250 | After a round the discovered ids are the labelled ones, blank ids aside |
| `RelationshipSearch.RelationshipMapSearch.constructor` | cmd/server/map_view.go:227-231 | The search starts with the root alone, at level and distance 0 |
| `RelationshipSearch.RelationshipMapSearch.AdoptLevel` | cmd/server/map_view.go:357-367 | An offered level is recorded exactly when the node is new, nearer, or equally near with a preferred level |
| `RelationshipSearch.RelationshipMapSearch.OfferLevels` | cmd/server/map_view.go:244-251 | A row offers the target one level below its source, and the source one level above its target, for each end on the frontier |
| `RelationshipSearch.RelationshipMapSearch.ExpandFrontier` | cmd/server/map_view.go:240-253 | One round carries the exact labelling, the collected rows and the discovered ids one layer further, for any order of rows |
| `RelationshipSearch.RelationshipMapSearch.Search` | cmd/server/map_view.go:227-254 | For any graph, depth and row order: distances are defined exactly within the depth and are shortest; levels are the preferred candidates over the layer before; collected relationships are exactly those with an end below the depth |
| `RelationshipSearch.DistanceIsShortestWalk` | cmd/server/map_view.go:233-254 | A node is labelled exactly when a walk of at most the depth reaches it, and its distance is the length of a shortest walk |
| `RelationshipSearch.LevelUnique` | cmd/server/map_view.go:240-253 | Levels are determined by the graph |
| `RelationshipSearch.SearchResultUnique` | cmd/server/map_view.go:227-254 | Distances and levels do not depend on the order in which rows arrive |
| `RelationshipGraph.NodeRanksBeforeTransitive` | cmd/server/map_view.go:396-413 | The ranking of nodes is transitive in both directions |
| `RelationshipGraph.NodeRanksBeforeTotal` | cmd/server/map_view.go:396-413 | Of two nodes with different ids exactly one ranks before the other |
| `RelationshipGraph.OptimumUnique` | cmd/server/map_view.go:379-394 | The best node is the same whatever the order of the node list |
| `RelationshipGraph.SelectTethers` | cmd/server/map_view.go:379-394 | The ceiling has the least level and the floor the greatest; among nodes of that level each has the greatest degree, then the least lower-case name, then the least id |
| `RelationshipGraph.ClosedGraphBalances` | cmd/server/map_view.go:296-331 | Outgoing and incoming counts each sum to the number of edges, degrees to twice that number |
| `RelationshipGraph.CollectEdges` | cmd/server/map_view.go:272-300 | Edges are the readable rows between visible entities; the counters count them at each end; the connected ids are the centre and the ends of edges |
| `RelationshipGraph.CollectNodes` | cmd/server/map_view.go:302-334 | Nodes are the visible connected entities, each once, with true counts; the bounds are reached and enclose every level |
| `RelationshipGraph.CollectVisible` | cmd/server/map_view.go:261-267 | The map holds exactly the ids some readable row has |
| `RelationshipGraph.AssembleGraph` | cmd/server/map_view.go:261-355 | The map is closed and balanced, with true bounds, a ceiling on the least and a floor on the greatest level, or Forbidden exactly when the centre is not visible |
| `RelationshipGraph.EdgesOfMembers` | cmd/server/map_view.go:277-300 | A drawn edge comes from a readable row between visible entities, and every such row is drawn |
| `RelationshipGraph.LoadRelationshipMapGraph` | cmd/server/map_view.go:205-355 | From the database to the map: a relationship is drawn exactly when it may be read, both ends are visible and one is nearer than the depth, with its type, status and description; every node carries its shortest distance and preferred level; it is refused exactly when the centre may not be read, or is not among the readable entities the database answers with after the search |
| `SecureListPage.LoadSecureListPage` | cmd/server/handleTableView.go:640-717 | The single pass with early exit answers as "filter, then slice": rows of the page, HasNext, exact total or lower bound; past the end the last rows |
| `SecureListPage.InRangeRefinesUnsecured` | cmd/server/handleTableView.go:690-716 | In range the secured page is the page the unsecured arithmetic shows of the readable rows |
| `SecureListPage.PastEndRefinesIff` | cmd/server/handleTableView.go:708-713 | Past the end the rows equal the true last page if and only if the size divides the count or the count is at most the size |
| `SecureListPage.PastEndExample` | cmd/server/handleTableView.go:708-713 | Three rows in pages of two: page 5 shows rows 2 and 3, the last page holds row 3 |
| `SecureListPage.PastEndIff` | cmd/server/handleTableView.go:210-219 | When a page is past the end, and when a further page exists, in terms of row numbers |
| `SecureListPage.EarlyExitAnswers` | cmd/server/handleTableView.go:690-695 | Leaving at the first readable row after a full page is right whatever rows follow |
| `SecureListPage.FullScanAnswers` | cmd/server/handleTableView.go:701-716 | Reading to the end gives the exact answer |
| `SecureListPage.PagesConcatenate` | cmd/server/handleTableView.go:640-717 | All pages in order are the filtered list |
| `SecureListPage.PaginationLinks` | cmd/server/handleTableView.go:719-740 | A link forward is offered exactly when a readable row stands on the next page, and a link back exactly when the request was not for the first page and there are more rows than one page; the page it leads to is full |
| `SecureListPage.NextLinkIff` | cmd/server/handleTableView.go:732-732 | The test for a link forward is true exactly when a readable row stands on the next page, and never for a page past the end |
| `TableInheritance.ResolveSucceedsIff` | internal/db/AppDefinition.go:1012-1048 | Resolution succeeds exactly when the ancestor chain runs to a table that extends nothing without a missing link or a repeated key |
| `TableInheritance.ResolveFailsIff` | internal/db/AppDefinition.go:1012-1048 | Resolution fails exactly when the chain misses a link or revisits a table |
| `TableInheritance.ResolvedHasAncestry` | internal/db/AppDefinition.go:1012-1048 | The resolved columns are those of the chain concatenated root first, up to the derived number prefix |
| `TableInheritance.AncestryExcludesBreak` | internal/db/AppDefinition.go:1012-1048 | No table has both a complete and a broken ancestor chain |
| `TableInheritance.ExtendsTargetIff` | internal/db/AppPublish.go:328-354 | The target test is true exactly when the published chain reaches a table of that name before it breaks or repeats |
| `TableInheritance.LessToVisit` | internal/db/AppDefinition.go:1012-1024 | Every step up leaves fewer unvisited keys, so the recursion ends on every app set, cyclic or not |
| `TableInheritance.Visited.constructor` | internal/db/AppDefinition.go:984-998 | A resolution starts with nothing visited |
| `TableInheritance.DefinitionTableExtendsTarget` | internal/db/AppPublish.go:328-354 | The recursion over the shared visited map computes the target test |
| `TableInheritance.ParentExtendsTarget` | internal/db/AppPublish.go:338-353 | Between marking and unmarking a key the test goes through the published parent link |
| `TableInheritance.ResolveDefinitionColumns` | internal/db/AppDefinition.go:1012-1048 | The recursion computes the resolved columns and hands the visited map back as it was |
| `TableInheritance.ResolveThroughParent` | internal/db/AppDefinition.go:1023-1047 | Between marking and unmarking a key the resolution goes through the parent link |
| `TableInheritance.DraftedParentExample` | internal/db/AppPublish.go:328-354 | A published table whose parent is only in the draft resolves its columns through that parent, but does not count as extending it |
| `TableInheritance.SetNumberPrefix` | internal/db/AutoNumber.go:41-63 | The first auto-number called `number` gets the prefix; every other column, and the order, stay as they are |
| `TableInheritance.DerivedPrefixIff` | internal/db/AppPublish.go:328-354 | The `number` column gets the derived prefix exactly when the table is not `base_task` itself and its published chain reaches that table; all other columns stay |
| `TableInheritance.ResolveTable` | internal/db/AppDefinition.go:2416-2441 | A table name resolves to the definition at hand whenever that has the table, otherwise to a dependency that has it, and to nothing exactly when none has |
| `DefinitionValidation.CollectInheritedColumnNames` | internal/db/AppDefinition.go:2443-2470 | The recursion over the visited map collects every column name along the chain, or reports the cycle or missing base |
| `DefinitionValidation.ValidateTable` | internal/db/AppDefinition.go:1723-1744 | A table is accepted exactly when its base exists, may be extended and brings no name the table has |
| `DefinitionValidation.ValidateTables` | internal/db/AppDefinition.go:1711-1744 | A definition's tables are accepted exactly when each is |
| `DefinitionValidation.AcceptedChain` | internal/db/AppDefinition.go:1711-1744 | Every table of an accepted, self-contained definition has an ancestor chain inside it |
| `DefinitionValidation.AcceptedTableResolves` | internal/db/AppDefinition.go:1711-1744 | If validation accepts, resolution succeeds; the resolved names are pairwise different and are the table's own plus the inherited names, system names aside |
| `DefinitionValidation.AcceptedNamesNormalized` | internal/db/AppDefinition.go:1711-1744 | Resolved names are in normal form |
| `DefinitionValidation.NotItsOwnAncestor` | internal/db/AppDefinition.go:2443-2450 | An accepted table is not among its own ancestors |
| `DefinitionValidation.CollectIgnoresVisited` | internal/db/AppDefinition.go:2443-2470 | What is collected does not depend on what was visited before, as long as the collection succeeds |
| `DefinitionNormalization.NormalizeIdempotent` | internal/db/AppDefinition.go:1185-1186 | Normalising a name twice is normalising it once |
| `DefinitionNormalization.NormalizeTablesResult` | internal/db/AppDefinition.go:1182-1251 | Normalised tables correspond one to one to the declared ones and have safe, normal, pairwise different names |
| `DefinitionNormalization.ColumnsNormalizeIff` | internal/db/AppDefinition.go:1212-1233 | Columns normalise exactly when each has a safe name of its own, a known type and a prefix just where numbers are issued; only the spelling of name and prefix changes |
| `DefinitionNormalization.NormalizingKeepsExtensible` | internal/db/AppDefinition.go:1182-1251 | A normalised table may be extended exactly when the declared one may |
| `DefinitionNormalization.NormalizeColumnsInPlace` | internal/db/AppDefinition.go:1212-1233 | The column loop rewrites the columns in place, and fails exactly on a blank, unsafe or repeated name, an unknown type or a misplaced prefix |
| `DefinitionNormalization.NormalizeTable` | internal/db/AppDefinition.go:1184-1200 | One table of the loop: its name is checked against the names seen, its columns are rewritten and checked |
| `DefinitionNormalization.NormalizeTablesInPlace` | internal/db/AppDefinition.go:1182-1251 | The table loop leaves the normalised tables in place, or fails exactly when some table or column name, type or prefix is refused |
| `PhysicalSchema.StoredAs` | internal/db/AppBuilder.go:779-812 | Which data types share an SQL type: each type other than text is that of exactly the data types listed |
| `PhysicalSchema.NewTableIs` | internal/db/AppPublish.go:97-113 | A new table has no rows and exactly the system columns, of which id, times and version are NOT NULL |
| `PhysicalSchema.NullCountZeroIff` | internal/db/AppPublish.go:197-203 | The null count is zero exactly when every row has the cell |
| `PhysicalSchema.AutoNumbersKeepOthers` | internal/db/AutoNumber.go:121-133 | Numbering keeps the columns, the rows and every cell of every other column |
| `PhysicalSchema.AutoNumbersKeepValid` | internal/db/AutoNumber.go:121-133 | Numbering breaks no NOT NULL constraint |
| `PhysicalSchema.AutoNumbersFill` | internal/db/AutoNumber.go:205-215 | After numbering no auto-number column holds a null |
| `TableReconciliation.EnsureColumnsResult` | internal/db/AppPublish.go:123-164 | The first pass adds exactly the missing columns, checks the type of the others, and touches no row |
| `TableReconciliation.SetNullabilitiesResult` | internal/db/AppPublish.go:176-207 | The last pass makes every nullability that of the definition and changes nothing else |
| `TableReconciliation.EnsureTableResult` | internal/db/AppPublish.go:84-209 | The table has every defined column at its type and nullability, keeps its rows, its other columns and all cells but auto-numbers, and stays valid |
| `TableReconciliation.EnsureTableTwice` | internal/db/AppPublish.go:84-209 | Ensuring a table again leaves it as it is |
| `SchemaPublication.DropColumnsResult` | internal/db/AppPublish.go:356-373 | Exactly the published columns that the next table does not list are gone; all other cells are kept |
| `SchemaPublication.ReconcileTablesResult` | internal/db/AppPublish.go:50-82 | Tables missing from the next definition are dropped, kept tables lose only dropped columns, other tables are untouched |
| `SchemaPublication.ApplyTablesResult` | internal/db/AppPublish.go:11-48 | Every table of the definition is the ensured form of what it was; other tables are untouched |
| `SchemaPublication.PublishedTablesConform` | internal/db/AppPublish.go:11-209 | After a publication every table of the new definition exists with every resolved column at its type and nullability |
| `SchemaPublication.PublishDropsOnlyOldTables` | internal/db/AppPublish.go:62-74 | Tables only in the old definition are gone; tables of neither are untouched |
| `SchemaPublication.PublishKeepsData` | internal/db/AppPublish.go:62-79 | A table in both definitions keeps its rows and, in every row, the value of every column that was not dropped and is not an auto-number of the new table |
| `SchemaPublication.PublishKeepsOwnColumns` | internal/db/AppPublish.go:356-373 | In particular every column in the table's own list after the publication, auto-numbers aside, keeps its values, whatever the old list was |
| `SchemaPublication.PublishKeepsValid` | internal/db/AppPublish.go:11-209 | After a publication no NOT NULL column holds a null |
| `SchemaPublication.PublishTwice` | internal/db/AppDefinition.go:447-461 | A second publication of the same definition changes nothing |
| `SchemaPublication.MergedApps` | internal/db/AppDefinition.go:1057-1077 | The app being published stands in for every active app that is the same; all others stay |
| `PublicationTransaction.Transaction.constructor` | internal/db/AppDefinition.go:447-451 | A transaction works on a copy of the committed database |
| `PublicationTransaction.Transaction.ExecDropTable` | internal/db/AppPublish.go:375-384 | Drops one table, or refuses an unsafe name and changes nothing |
| `PublicationTransaction.Transaction.ExecDropColumn` | internal/db/AppPublish.go:386-399 | Drops one column, or fails and changes nothing |
| `PublicationTransaction.Transaction.ExecAddColumn` | internal/db/AppPublish.go:153-155 | Adds one column, or fails and changes nothing |
| `PublicationTransaction.Transaction.ExecSetNotNull` | internal/db/AppPublish.go:197-206 | Sets NOT NULL only when no row lacks the cell, or fails and changes nothing |
| `PublicationTransaction.Transaction.ExecDropNotNull` | internal/db/AppPublish.go:190-195 | Drops NOT NULL, or fails and changes nothing |
| `PublicationTransaction.Transaction.ReconcileDefinitionColumns` | internal/db/AppPublish.go:356-373 | The column loop drops exactly what the next table no longer lists |
| `PublicationTransaction.Transaction.ReconcileDefinitionTable` | internal/db/AppPublish.go:62-79 | One published table: dropped, skipped or reduced |
| `PublicationTransaction.Transaction.ReconcileDefinitionSchema` | internal/db/AppPublish.go:50-82 | The table loop leaves the reconciled database, or fails exactly when reconciling does |
| `PublicationTransaction.Transaction.EnsureColumnsExist` | internal/db/AppPublish.go:118-164 | The first column loop, with the row count read at most once, establishes the ensured columns |
| `PublicationTransaction.Transaction.AlignNullability` | internal/db/AppPublish.go:176-207 | The last column loop establishes the defined nullabilities |
| `PublicationTransaction.Transaction.EnsureDefinitionTableSchema` | internal/db/AppPublish.go:84-209 | Statement by statement the transaction reaches the ensured table, or fails exactly when ensuring does |
| `PublicationTransaction.Transaction.ApplyDefinitionSchema` | internal/db/AppPublish.go:11-48 | Table by table the transaction reaches the applied definition, or fails exactly when applying does |
| `PublicationTransaction.Transaction.ApplyDefinitionTable` | internal/db/AppPublish.go:36-46 | One table of the loop: resolved with a new visited map, then ensured; it fails exactly when one of the two does |
| `PublicationTransaction.AcceptedDefinitionIsWellNamed` | internal/db/AppDefinition.go:1711-1744 | A validated self-contained definition has the distinct names that publication relies on, and all its tables resolve |
| `PublicationSuccess.EnsureTableSucceedsIff` | internal/db/AppPublish.go:84-209 | Ensuring a table succeeds if and only if every column has a known type, a safe name and a legal prefix, and either stands in the table at its type, is not a key made nullable and has no null that NOT NULL would forbid, or is new and nullable, numbered, or without rows to fill |
| `PublicationSuccess.PublishSucceedsIff` | internal/db/AppPublish.go:11-209 | A publication succeeds if and only if what it drops has safe names, every table has a legal name and resolves, and every resolved column is admitted in that sense by the table as it was before, dropped columns counting as missing |
| `PublicationSuccess.AcceptedPublishesIff` | internal/db/AppDefinition.go:417-470 | Declared tables that normalise and pass validation, over the tables of an earlier publication, are published if and only if those tables admit every resolved column |
| `PublicationSafety.NumberedCells` | internal/db/AutoNumber.go:121-218 | After numbering, every cell of every auto-number column is the number that its old row and its position call for |
| `PublicationSafety.EnsuredNumbers` | internal/db/AutoNumber.go:121-218 | The same for ensuring a whole table |
| `PublicationSafety.PublishKeepsNumbersIff` | internal/db/AutoNumber.go:162-218 | Over a whole publication an auto-number column that is not dropped keeps its values if and only if every row has a number that is already in the form of the column's prefix |
| `PublicationSafety.PublishLosesDroppedIff` | internal/db/AppPublish.go:356-373 | A column that the next table does not list itself loses every value, also when it comes back by inheritance; it is kept if and only if no row had one |
| `PublicationSafety.MovedColumnExample` | internal/db/AppPublish.go:356-373 | A text column with the value `x` that moves to a parent is dropped and added again without it |
| `PublicationSafety.PublishReissuesDropped` | internal/db/AppPublish.go:356-373 | An auto-number that is dropped and inherited again holds, in every row, the number issued for it, whatever it held; the column is kept if and only if every row held that number already |
| `PublicationSafety.RewrittenNumberExample` | internal/db/AutoNumber.go:173-191 | A stored `TSK-7` becomes `TSK-000007` |
| `PublicationSafety.DeclaredTablesPublish` | internal/db/AppDefinition.go:417-490 | End to end: declared tables that normalise, pass validation and are published conform to their resolved columns and hold no null under NOT NULL, and publishing them again changes nothing |
| `AppLifecycle.StepKeepsVersions` | internal/db/AppDefinition.go:398-470 | No operation lowers a version; the published version never passes the draft version; equal versions mean the publication is the normalised draft |
| `AppLifecycle.RunKeepsVersions` | internal/db/AppDefinition.go:311-470 | Over every run of saves, publications and builder operations, each in an environment of its own, both versions only grow and "no unpublished draft" is truthful |
| `AppLifecycle.NewAppVersions` | internal/db/AppDefinition.go:311-376 | A new app starts truthful: draft version 1, nothing published |
| `OperationEffects.SaveDraftEffect` | internal/db/AppDefinition.go:378-415 | A refused save changes nothing; any other leaves the prepared definition as the draft, the database and the publication as they were, and raises the draft version exactly when the content differs |
| `OperationEffects.PublishEffect` | internal/db/AppDefinition.go:417-470 | A publication succeeds exactly when the draft prepares and its schema can be published; it publishes the draft, prepared again, with that schema, and the draft version becomes the published one |
| `OperationEffects.SavedDraftIsPublished` | internal/db/AppDefinition.go:378-470 | The publication that succeeds right after a save publishes what was saved, and leaves no unpublished draft |
| `OperationEffects.BuilderVersions` | internal/db/AppBuilder.go:988-1024 | Every builder operation leaves both versions equal and one above the greater of what they were |
| `OperationEffects.CreateTableEffect` | internal/db/AppBuilder.go:147-252 | A table is created if and only if its name is legal, new to the publication and to the database, and the edit prepares; the database then has a new, empty table and the publication a table without columns |
| `OperationEffects.CreateColumnEffect` | internal/db/AppBuilder.go:254-389 | A created column is in the publication with its normal name and prefix; its table was there, had no such column, and had no rows if the column needs a value |
| `OperationEffects.UpdateColumnEffect` | internal/db/AppBuilder.go:453-611 | An updated column was there, keeps name and type, and has the nullability and the prefix that were asked for, a blank prefix keeping that of an auto-number |
| `OperationEffects.DeleteTableEffect` | internal/db/AppBuilder.go:613-680 | A table is deleted only when it is published and has no rows; it is then gone from the database and the publication, and no other table is touched |
| `OperationEffects.DeleteColumnEffect` | internal/db/AppBuilder.go:682-777 | A column is deleted only from a published table without rows that has it; no published table of that name has it then |
| `OperationEffects.ColumnStepKeepsData` | internal/db/AppBuilder.go:254-777 | A column operation touches no other table and keeps, row by row, every cell of the table but those of the named column and of auto-numbers |
| `DraftSurvival.BuilderSaves` | internal/db/AppBuilder.go:988-1024 | Every builder operation that succeeds stores its edit of the publication, prepared, as draft and as publication |
| `DraftSurvival.BuilderStepContent` | internal/db/AppBuilder.go:147-777 | After a builder operation the draft holds, beside the table or column the operation names, exactly the tables, columns, dependencies and services of the publication it edited |
| `DraftSurvival.DraftSurvivesIff` | internal/db/AppBuilder.go:147-777 | What a draft holds beside the named table or column survives a builder operation if and only if the publication holds the same; item by item too |
| `DraftSurvival.PublishedDraftSurvives` | internal/db/AppBuilder.go:988-1024 | Without an unpublished draft a builder operation loses nothing beside the table or column it names |
| `DraftSurvival.RunKeepsPrepared` | internal/db/AppDefinition.go:378-470 | Over every run all stored definitions are prepared, so preparing them again changes nothing |
| `DraftSurvival.RunLosesNoPublishedDraft` | internal/db/AppDefinition.go:311-470 | After any run of a new app, as long as the flag shows no unpublished draft, no builder operation loses drafted content beside what it names |
| `DraftSurvival.LostDraftExample` | internal/db/AppBuilder.go:147-252 | An unpublished table `notes` is gone from the draft once the builder has created `tasks` |
| `SchemaInStep.CreateTableInStep` | internal/db/AppBuilder.go:147-252 | Creating a table keeps publication and physical schema in step |
| `SchemaInStep.CreateColumnInStep` | internal/db/AppBuilder.go:254-389 | Creating a column keeps them in step, with the NOT NULL of an auto-number set last |
| `SchemaInStep.UpdateColumnInStep` | internal/db/AppBuilder.go:453-611 | Updating a column keeps them in step, with the deferred NOT NULL of an auto-number |
| `SchemaInStep.DeleteTableInStep` | internal/db/AppBuilder.go:613-680 | Deleting a table keeps them in step |
| `SchemaInStep.DeleteColumnInStep` | internal/db/AppBuilder.go:682-777 | Deleting a column keeps them in step |
| `SchemaInStep.DeferredEditInStep` | internal/db/AppBuilder.go:550-598 | A column that is nullable until its rows are numbered is NOT NULL, without nulls, at the end |
| `SchemaInStep.BuilderSaveInStep` | internal/db/AppBuilder.go:988-1024 | The saved, normalised definition is in step with what the edited one was in step with |
| `SchemaInStep.PublishedInStep` | internal/db/AppPublish.go:11-209 | Publishing tables that extend nothing leaves exactly their columns, beside system columns |
| `SchemaInStep.SaveInStep` | internal/db/AppDefinition.go:378-415 | Saving a draft touches neither the publication nor the physical schema |
| `SchemaInStep.PublishInStep` | internal/db/AppDefinition.go:417-470 | Publishing keeps publication and physical schema in step |
| `SchemaInStep.WriteInStep` | internal/db/AppPublish.go:197-206 | Writing records that the engine accepts keeps them in step |
| `SchemaInStep.StepKeepsInStep` | internal/db/AppBuilder.go:147-777 | Every single operation keeps them in step |
| `SchemaInStep.RunKeepsInStep` | internal/db/AppBuilder.go:147-777 | Over every run of drafts, publications, builder operations and record writes, with the other apps changing between the steps, they stay in step |
| `SchemaInStep.NonOwningPublishIff` | internal/db/AppPublish.go:11-30 | The publication of an app that owns no physical schema leaves the tables alone, and keeps in step if and only if they are already those of the draft |
| `SchemaInStep.NewAppOwns` | internal/db/AppDefinition.go:311-317 | Creating an app refuses a blank namespace, so every created app owns its physical schema |
| `SchemaInStep.NewAppInStep` | internal/db/AppDefinition.go:311-376 | A new app is in step |
| `SchemaInStep.PublishedSchemaIsPhysical` | internal/db/AppBuilder.go:254-777 | After any run from a new app every published column is physical with its nullability, no other non-system column exists, and no NOT NULL column holds a null |
| `AppStorage.AppStore.constructor` | internal/db/AppDefinition.go:347-368 | The stored row of a new app |
| `AppStorage.AppStore.SaveAppDefinition` | internal/db/AppDefinition.go:378-415 | The draft is replaced and its version raised only when the content differs; a refused save changes nothing; `OperationEffects.SaveDraftEffect` says what is stored |
| `AppStorage.AppStore.PublishAppDefinition` | internal/db/AppDefinition.go:417-490 | All statements run on a copy: success commits schema, publication and version together, any failure leaves the stored app as it was |
| `AppStorage.AppStore.SaveAppDefinitionTx` | internal/db/AppBuilder.go:988-1024 | Inside the transaction the edited definition becomes both draft and publication, one version above both |
| `AppStorage.AppStore.Commit` | internal/db/AppDefinition.go:488-490 | The committed row replaces the stored app as a whole |
| `AppStorage.AppStore.CreateAppTable` | internal/db/AppBuilder.go:147-252 | Succeeds exactly when name, definition and schema allow it; otherwise nothing changes |
| `AppStorage.AppStore.CreateAppColumn` | internal/db/AppBuilder.go:254-389 | The same for a column, including the refusal of NOT NULL on a filled table |
| `AppStorage.AppStore.ResolveDraftColumns` | internal/db/AppBuilder.go:829-847 | The columns that are numbered are those of the edited table with everything it inherits, the edited definition standing in for the published one |
| `AppStorage.AppStore.FinishColumn` | internal/db/AppBuilder.go:331-351 | Saving, numbering and the deferred NOT NULL happen together or not at all |
| `AppStorage.AppStore.UpdateAppColumn` | internal/db/AppBuilder.go:453-611 | The same for a change of nullability and prefix |
| `AppStorage.AppStore.DeleteAppTable` | internal/db/AppBuilder.go:613-680 | The same for deleting a table, refused while it has rows |
| `AppStorage.AppStore.DeleteAppColumn` | internal/db/AppBuilder.go:682-777 | The same for deleting a column, refused while the table has rows |
| `StableSorting.StableSortResult` | internal/db/AppDefinition.go:2083-2088 | Sorting rearranges the list and puts it in order |
| `StableSorting.StableSortIsStable` | internal/db/AppDefinition.go:2083-2088 | Elements that the order does not tell apart keep their sequence |
| `StableSorting.FilterSort` | internal/db/SecurityRules.go:86-98 | Choosing rules before or after sorting them is the same |
| `StableSorting.StableSortUnique` | internal/db/AppDefinition.go:2083-2088 | Lists with the same elements that the order tells apart sort to the same list |
| `StableSorting.SortedKeysUnique` | internal/db/AppRuntimeMutation.go:172-172 | The sorted keys of a map do not depend on the order it is walked in |
| `SecurityRules.NormalizeSecurityRules` | internal/db/AppDefinition.go:2064-2091 | The loop keeps the first rule of each name, normalised, and sorts by order and name |
| `SecurityRules.KeepFirstIs` | internal/db/AppDefinition.go:2064-2082 | A normalised rule is kept exactly when it has no name or is the first declared of its name |
| `SecurityRules.NormalizedParts` | internal/db/AppDefinition.go:2064-2082 | What becomes of each part of a rule, and exactly which spellings mean deny, allow, C, R, U and D |
| `SecurityRules.DeclarationOrderIrrelevant` | internal/db/AppDefinition.go:2064-2091 | With distinct names the normalised rules do not depend on the order of declaration |
| `SecurityRules.DecideScope` | internal/db/SecurityRules.go:251-267 | "No rules" exactly when no rule concerns the operation and field; yes exactly when the first concerning rule that matches is no deny; no exactly when it is a deny, in any of its spellings, or when rules concern the query and none matches |
| `SecurityRules.AllowsRecordIff` | internal/db/SecurityRules.go:132-148 | A record is open to administrators who read, and otherwise to who passes the gate when no rule concerns the operation or an allow is the first to match |
| `SecurityRules.EvaluatorIsSorted` | internal/db/SecurityRules.go:86-98 | The evaluator of a table sees the rules in the order the validation sorted them |
| `SecurityRules.EvaluatorIs` | internal/db/SecurityRules.go:86-98 | The evaluator of a table holds each of its rules as often as declared and no others, in ascending order, and by name where the orders are equal |
| `SecurityRules.ScopeKeyInjective` | internal/db/AppDefinition.go:2311-2317 | For the operations C, R, U and D equal keys mean equal table, operation and field, whatever characters these hold |
| `SecurityRules.ValidateSecurityRuleShadowing` | internal/db/AppDefinition.go:2255-2306 | The nested loops accept exactly the lists without a shadowed rule, and report a rule together with an earlier one that shadows it |
| `SecurityRules.ShadowedRuleIsDead` | internal/db/AppDefinition.go:2239-2306 | A shadowed rule never decides a query, and removing it changes no decision, for every operation, field, role set and condition valuation |
| `SecurityRules.ReportedRuleIsDead` | internal/db/AppDefinition.go:2293-2303 | The rule named in a refusal is dead in that sense |
| `SecurityRules.UnshadowedRuleDecides` | internal/db/AppDefinition.go:2251-2254 | A rule that is not shadowed decides for some roles and conditions |
| `SecurityRules.EveryRuleCanDecideIff` | internal/db/SecurityRules.go:86-98 | Every rule of a list can still decide some query if and only if no rule is shadowed and every rule is for the table whose evaluator is loaded |
| `SecurityRules.AcceptedRulesCanDecideIff` | internal/db/AppDefinition.go:2187-2306 | In a list that the validation accepts every rule can still decide some query if and only if the list is validated for a table or none of its rules names one |
| `SecurityRules.PageUnprotectedIff` | internal/db/SecurityRules.go:58-104 | For a page nothing at all is checked, and everything is allowed, if and only if it has no gating roles and all its rules name a table |
| `SecurityRules.PageRuleExample` | internal/db/AppDefinition.go:1917-1924 | A page whose only rule is an unconditional deny naming a table is accepted, its evaluator is empty, and every query is allowed |
| `SecurityRules.WhitelistIsAcceptedIff` | internal/db/AppDefinition.go:2252-2254 | In any list and any order of declaration, an unconditional deny that is evaluated last adds no shadowing exactly when every earlier rule of its scope and role has a condition |
| `SecurityRules.ValidateRule` | internal/db/AppDefinition.go:2193-2231 | The single-rule checks accept exactly the well-declared rules |
| `SecurityRules.ValidateSecurityRules` | internal/db/AppDefinition.go:2187-2237 | The validation accepts exactly a declared list of gating roles with well-declared, distinctly named rules without shadowing; shadowing is reported only of lists that passed the other checks |
| `TriggerWriteSet.ColumnsByName` | internal/db/ScriptOps.go:814-820 | Every column of the view is found under its name |
| `TriggerWriteSet.LastColumnWins` | internal/db/ScriptOps.go:814-820 | Of several columns of one name the last is found |
| `TriggerWriteSet.WriteSet.constructor` | internal/db/HandleSave.go:95-102 | The submitted values as text and null flags |
| `TriggerWriteSet.WriteSet.ApplyTriggerRecord` | internal/db/AppRuntimeMutation.go:63-99 | For any order in which the record is walked, every known column ends with exactly the cell its value asks for, everything else is untouched, and it fails exactly when some value does not normalise |
| `TriggerWriteSet.WriteSet.ApplyField` | internal/db/AppRuntimeMutation.go:78-96 | One field: unchanged, null or bound; other keys untouched |
| `TriggerWriteSet.WriteSet.DropKnown` | internal/db/AppRuntimeMutation.go:64-71 | The first loop forgets the known columns and nothing else |
| `TriggerWriteSet.WriteSetIsExactDifference` | internal/db/AppRuntimeMutation.go:63-99 | On an update no column is in both maps; a column is in neither exactly when it is missing from the record or unchanged; laid over the previous record the maps give the record's value |
| `TriggerWriteSet.InsertWritesWholeRecord` | internal/db/AppRuntimeMutation.go:88-96 | On an insert every known column of the record is written, as value or null |
| `TriggerWriteSet.BuildTriggerRecord` | internal/db/AppRuntimeMutation.go:37-61 | The trigger's record is the snapshot with the submitted values of known columns laid over it; it fails exactly when a submitted value has no native form |
| `TriggerWriteSet.LayNulls` | internal/db/AppRuntimeMutation.go:51-59 | Columns that only the null map names become nil |
| `TriggerWriteSet.TriggerRecordIsOne` | internal/db/AppRuntimeMutation.go:37-61 | The record has each submitted value, nil for each null and the snapshot elsewhere |
| `TriggerWriteSet.TriggerRecordUnique` | internal/db/AppRuntimeMutation.go:37-61 | No other record has |
| `TriggerWriteSet.CollectKeys` | internal/db/AppRuntimeMutation.go:158-172 | The keys of both maps, each once, in ascending order |
| `TriggerWriteSet.BuildInsert` | internal/db/AppRuntimeMutation.go:157-197 | Row i of columns, values and placeholders belongs to the i-th key and placeholder i+1; it fails exactly on an unsafe key |
| `TriggerWriteSet.InsertBindsEachKeyOnce` | internal/db/AppRuntimeMutation.go:157-197 | Every key is bound once, to its own value and its own placeholder, whatever order the maps are walked in |
| `TriggerWriteSet.BuildAssignments` | internal/db/HandleSave.go:258-277 | The SET list names exactly the keys of the text map |
| `TriggerWriteSet.UpdateStoresRecordIff` | internal/db/HandleSave.go:258-277 | The UPDATE stores a column of the trigger's record if and only if the record does not turn a value into a null |
| `TriggerWriteSet.ClearedFieldExample` | internal/db/HandleSave.go:258-277 | Clearing a date on an existing record: the UPDATE keeps the old date |
| `TriggerWriteSet.RunBeforeWriteTriggers` | internal/db/AppRuntime.go:357-402 | The chain runs the scripts of exactly the enabled triggers of the event that are declared on the app for the table or on the first table of that name, each as often as declared, in ascending order and by name, stopping at the first failure |
| `TriggerWriteSet.ResolveTriggersResolves` | internal/db/AppRuntime.go:404-457 | The resolved triggers are exactly those, app triggers before table triggers where order and name are equal |
| `TriggerWriteSet.FireIs` | internal/db/AppRuntime.go:376-400 | A trigger whose condition does not hold, or whose script returns nothing, hands the record on; otherwise what its script returns, or its failure |
| `TriggerWriteSet.ChainHandsOver` | internal/db/AppRuntime.go:376-400 | Later triggers get the record that the earlier ones left; the first failure ends the chain |
| `TriggerWriteSet.QuietChain` | internal/db/AppRuntime.go:376-400 | Triggers that hand the record back or return nothing leave it unchanged |
| `TriggerWriteSet.TriggerDeclarationOrderIrrelevant` | internal/db/AppRuntime.go:446-451 | With distinct names the resulting record does not depend on the order of declaration |
| `TriggerWriteSet.UpdateThroughTriggers` | internal/db/ScriptOps.go:298-308 | One update in the source's order, through exactly the triggers that listen to the table's updates: it succeeds exactly when the submitted values have native forms, the chain runs through and every known column of its record normalises, and it leaves the exact difference to the previous record |
| `TriggerWriteSet.QuietUpdateRunsIff` | internal/db/AppRuntimeMutation.go:37-99 | Through triggers that change nothing the update succeeds if and only if every submitted value, and every stored value that was not submitted, normalises |
| `TriggerWriteSet.QuietTriggersKeepEffectIff` | internal/db/AppRuntimeMutation.go:37-99 | Through triggers that change nothing the maps mean the same over the snapshot if and only if a submitted text reads back as itself, a null flag is raised, and a value that was not submitted compares as it is stored |
| `TriggerWriteSet.QuietTriggersKeepUpdateIff` | internal/db/HandleSave.go:258-277 | Through triggers that change nothing the UPDATE stores the same if and only if a cleared column was empty before, a submitted text reads back as itself or as a null over that stored text, and a value that was not submitted is null or compares as it is stored |
| `TriggerWriteSet.QuietClearExample` | internal/db/HandleSave.go:258-277 | A cleared date: NULL without the triggers, the old date after triggers that do nothing |
| `TriggerWriteSet.UnsubmittedTextExample` | internal/db/HandleSave.go:541-560 | A stored text with blanks around it that was not submitted is rewritten without them |
| `TriggerWriteSet.StoredInstantExample` | internal/db/ScriptOps.go:1049-1067 | A stored date or timestamp read as an instant and not submitted makes every such update fail |
| `AppModel.FindAppIs` | internal/db/ScriptScope.go:200-214 | An app is found by its name or namespace, whatever the case; the base app also as `system`, unless an app has that name |
| `MethodLinks.CutAtDot` | internal/db/AppRuntime.go:476-479 | The first dot separates service and method |
| `MethodLinks.ValidateMethodCall` | internal/db/AppDefinition.go:2472-2502 | A call is accepted exactly when a local method or a public method of a published dependency has its name |
| `MethodLinks.FindPublicMethod` | internal/db/AppDefinition.go:2489-2499 | The inner loops find a public method of that name exactly when there is one |
| `MethodLinks.ServiceIndexHas` | internal/db/AppDefinition.go:1815-1827 | The index of local services holds exactly the declared methods |
| `MethodLinks.ResolveDependencies` | internal/db/AppDefinition.go:1677-1690 | The loops map every dependency to the first app of that name or namespace, or report the missing one |
| `MethodLinks.SameDependencies` | internal/db/AppRuntime.go:48-60 | Validation and run time see the same dependency apps |
| `MethodLinks.FindServiceMethodNormal` | internal/db/AppRuntime.go:500-517 | Run time finds a method of a normalised definition exactly when there is one, and its visibility decides whether it is exported |
| `MethodLinks.FirstPublicResult` | internal/db/AppRuntime.go:488-498 | Walking the dependencies finds a public method exactly when one of them exports it |
| `MethodLinks.AcceptedCallResolves` | internal/db/AppRuntime.go:475-498 | Every accepted call resolves in every walk order: to the app's own method if it has one, otherwise to a public method of a direct dependency |
| `MethodLinks.ResolvesIff` | internal/db/AppRuntime.go:475-498 | A call resolves if and only if the app has the method or the definition that run time sees of a dependency, published or else drafted, exports it |
| `MethodLinks.RefusedButResolvesIff` | internal/db/AppRuntime.go:41-46 | A refused call resolves if and only if nothing published has the method and the draft of an unpublished dependency exports it |
| `MethodLinks.ResolvesIffAccepted` | internal/db/AppRuntime.go:475-498 | When all dependencies are published, a call resolves if and only if it is accepted |
| `MethodLinks.PublicCallResolvesIff` | internal/db/AppRuntime.go:475-498 | A call from outside resolves if and only if the app's own method is public, or it has none and a dependency exports it |
| `MethodLinks.UniqueExportResolves` | internal/db/AppRuntime.go:488-498 | When one dependency exports the method, that one is chosen in every walk order |
| `MethodLinks.ValidateLinks` | internal/db/AppDefinition.go:1832-1877 | Calls of triggers, schedules and enabled endpoints are all available, or one is refused; calls of table triggers need only be non-blank |
| `MethodLinks.AcceptedLinksResolve` | internal/db/AppDefinition.go:1832-1877 | Every checked call of an accepted definition resolves once it is published |
| `MethodLinks.TableTriggerExample` | internal/db/AppDefinition.go:1773-1783 | A table trigger is accepted with a call that nobody can resolve |

## Left out

- RunKeepsInStep: is stated for drafts that extend no table and for apps that own their physical schema, as every created app does.
- DraftSurvivesIff: takes a definition as its dependencies, services and tables, and a list of tables as a set, so it says nothing of their order.
- AcceptedTableResolves: is stated for definitions whose tables extend only tables of the same definition.
- AcceptedRulesCanDecideIff: takes role membership and conditions as arbitrary predicates on role names and condition texts; roles that one membership always grants together are not distinguished from it.
- ListSelects: leaves out the query that lists are read from, which its clause is appended to, and takes `*` patterns without `%`, `_` and backslash, which are those that are globs.
- CreateColumnEffect: says what a creation that succeeds needed and left; when it succeeds is the contract of `AppStorage.AppStore.CreateAppColumn`. The same holds of UpdateColumnEffect, DeleteTableEffect and DeleteColumnEffect.
- PublishSucceedsIff: is stated for definitions with distinct table and column names, as validation leaves them; statements that the model leaves out, such as column defaults, may fail beyond it.
- QuietTriggersKeepUpdateIff: takes the reading, normalising and comparing of values as functions with the laws of `LawfulCodec`, and speaks of the text a column compares as.
- NormalizeColumnsInPlace: leaves out labels, default values, choices, validation expressions and reference tables of a column; a blank type stands for the text it becomes.
- NormalizeTable: leaves out labels, display fields, forms and lists of the table.
- NormalizeTablesInPlace: leaves out labels, display fields, forms and lists of the tables.
- ValidateTable: leaves out the per-column checks, display fields, forms, lists and related lists.
- LoadRelationshipMapGraph: claims nothing about the order of nodes and edges in the lists.
- AcceptedCallResolves: assumes the same active apps at validation and at run time, with names stored in lower case.
- Text beyond ASCII: case folding and whitespace are those of ASCII characters.
- The types the database infers for placeholders: the reader takes an argument as the value it is. ORDER BY is read, the order itself and its collation are not part of this model.
- The built-in record transforms, the `work_type` override and the form validation between the triggers and the UPDATE.
- Column defaults, database triggers, the version trigger and the extension statements of a publication.
- The synchronisation of roles, pages and landing pages, and the seeding after the commit, which may fail when the publication has already taken effect.
- Concurrent saves and publications: every operation is one atomic step.
- UpdateAppTable, which changes labels only and saves the definition as the other builder operations do.
- Tables of other apps in the same database.
- Parsing and serialising of definitions, HTTP handlers, sessions, templates, scripts, realtime streams and webhooks.
- Documentation permissions, task boards, saved views, preferences and label formatting.
