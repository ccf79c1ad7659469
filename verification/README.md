# Verified model of presto-mcp

presto-mcp is a read-only server in front of Presto and Trino engines. This project models the parts of it that
decide something, and proves what they decide, for all inputs and all runs:

- **the read-only statement guard** (`GoStrings.dfy`, `Lexer.dfy`, `Guard.dfy`, `Grammar.dfy`, `Acceptance.dfy`,
  `Language.dfy`, `GuardLaws.dfy`, `ExplainLaws.dfy`, `ExplainOptions.dfy`, `TrailingLaws.dfy`): the byte scanner and the
  statement checker of `internal/presto/readquery.go`. The loops are methods proved against functions. The functions are
  compared with two independent references: an automaton that reads one byte at a time and only toggles on quotes, and a
  grammar given as syntax trees with a printer, which names its keywords by their letters. The main result is
  `Language.GuardAcceptsLanguage`: the guard accepts exactly the texts that some well-formed tree prints to.
  `ExplainLaws.TransparentExact` says exactly when putting EXPLAIN and its options in front changes nothing, and
  `ExplainOptions.DecidingWordFirst` exactly when the word that decides is the first one behind the options.
- **quoted identifiers** (`Identifiers.dfy`): printing and scanning are inverses, and every metadata statement built
  from names of any bytes is accepted by the guard, reads back its names, and determines the request it was built for.
- **the paged statement protocol** (`Paging.dfy`, `ReadClient.dfy`): POST, GET along `nextUri`, DELETE. The coordinator
  is an object that answers from a script of replies and logs requests. Every run is put in closed form from its first
  stopping page; capping, the cancel discipline and the bound on requests follow from that.
- **plan and stage flattening** (`Descriptors.dfy`, `Plans.dfy`, `Ambiguity.dfy`, `Stages.dfy`): the tree walks append
  to a shared list and are proved to be preorder. A list determines its tree exactly when a check of its ids finds one
  way only of hanging it (`Ambiguity.OneTreeExact`), which unique ids guarantee. A rebuild that links every entry to the
  deepest open node of its parent's id returns the original tree exactly when the tree is linked that way.
- **configuration and registry** (`Config.dfy`, `Registry.dfy`): defaults filled in in place, validation, and when a
  validated configuration yields a registry.

A Go string is a sequence of bytes; the model writes a byte as the character with that code and never needs the code to
be below 256. White space is modelled as Go treats it: `strings.TrimSpace` removes every Unicode white-space rune in its
UTF-8 form, while the scanner's own cutset knows the six ASCII bytes only. That difference is visible: a comment put in
front of a statement that starts with wide white space makes an accepted text rejected
(`GuardLaws.CommentBeforeWideSpace`), and `GuardLaws.CommentPrefix` gives the exact condition.

The two references disagree in one place, because the code does. The scan for separators respects both kinds of quotes
and comments (`internal/presto/readquery.go:129-155`), but the scan that skips a parenthesis group behind EXPLAIN respects
single quotes only (`internal/presto/readquery.go:251-273`), and the grammar follows it. A group such as `(/*)` is balanced
for the one and leaves an open comment for the other. `ExplainLaws.ExplainExact` gives the verdict behind every group.
Two things can go wrong, and each has its own exact condition:

- *Separators.* Two statements that are refused alone can pass behind a group (`ExplainLaws.GroupHidesSeparator`). EXPLAIN
  is transparent exactly when its options hold no separator and leave the scan for separators outside quotes and comments
  (`ExplainLaws.TransparentExact`). That settles separators and nothing else.
- *The deciding word.* The tests refuse EXPLAIN with options before a write (`internal/presto/readquery_test.go:70`), but
  the word that the code checks can lie in a comment, with DELETE the only word outside (`ExplainLaws.GroupHidesWord`),
  and even behind a transparent EXPLAIN the code can skip a write as part of a group: parentheses within comments stretch
  the group over an INSERT that the scan for separators reads right behind the options
  (`ExplainOptions.NeutralGroupHidesWrite`). The word that is checked is the first one that this scan reads behind the
  options exactly when the options are a run of complete options for it, which one pass over them finds out
  (`ExplainOptions.DecidingWordFirst`). Then acceptance means that this word is allow-listed
  (`ExplainOptions.AcceptedReads`). Groups without a parenthesis or single quote inside a comment or double quotes always
  pass (`ExplainOptions.AlikeIsRun`).

Two comments in the source are narrower than its code. The comment on `stripExplainOptions` speaks of one option group,
but the loop takes any number of groups and words in any order (`internal/presto/readquery.go:193-210`); the grammar
follows the code. The comment on `PlanNode` says that the parent is referenced by id
(`internal/normalize/querydetail.go:94`); with repeated ids that reference can be ambiguous.
`Ambiguity.RepeatedIdsLoseShape` shows two different trees with the same list, and `Ambiguity.OneTreeExact` says from the
ids when that cannot happen.

URL parsing, JSON decoding of plans, the reading of durations and data sizes, and the resolution of secret references are
parameters: functions that the theorems quantify over. A request that finds no reply left in the coordinator's script
fails, as it does when its deadline passes, so every run is finite.

Check the project with `dafny verify dfyconfig.toml`.

## Model

| member | source | states |
|---|---|---|
| GoStrings.SpaceRuneExact | internal/presto/readquery.go:55 | the runes that trimming removes are the UTF-8 forms of the code points that Go counts as white space |
| Lexer.TopLevelSemicolon | internal/presto/readquery.go:129-155 | the token-skipping scan returns the first separator that the one-pass automaton meets, or -1 |
| Lexer.FirstSeparatorIsLeast | internal/presto/readquery.go:126-128 | the position is a `;` read outside quotes and comments with none before it; -1 means that the whole text has none |
| Lexer.FirstSeparatorUnique | internal/presto/readquery.go:126-128 | no other position has that property |
| Lexer.NoSeparatorConcat | internal/presto/readquery.go:129-155 | a concatenation has no separator exactly when neither part has one, the second part being read from where the first one ends |
| Lexer.SkipQuoted | internal/presto/readquery.go:218-231 | the loop ends where the quoted token ends |
| Lexer.QuoteEndIsToggling | internal/presto/readquery.go:216-217 | skipping doubled quotes is the same as toggling on every quote byte, unterminated literals included |
| Lexer.SkipLineComment | internal/presto/readquery.go:233-238 | the loop ends where the line comment ends |
| Lexer.LineEndExact | internal/presto/readquery.go:233-238 | a line comment ends before the first newline or with the text |
| Lexer.SkipBlockComment | internal/presto/readquery.go:240-249 | the loop ends where the block comment ends |
| Lexer.BlockEndExact | internal/presto/readquery.go:240-249 | a block comment ends just past its first closer, and takes everything when it has none; comments do not nest |
| Lexer.SeparatorPastQuote | internal/presto/readquery.go:132-135 | jumping over a quoted token loses no separator and invents none |
| Lexer.SeparatorPastBlock | internal/presto/readquery.go:142-147 | the same for a block comment, also from behind a `*` |
| Lexer.StripLeadingTrivia | internal/presto/readquery.go:158-170 | the loop removes leading white space and comments |
| Lexer.StripTriviaMaximal | internal/presto/readquery.go:157-170 | what is left is a suffix that starts with neither white space nor a comment, and stripping it again changes nothing |
| Lexer.LeadingWord | internal/presto/readquery.go:183-191 | splits the text at the end of its leading word |
| Lexer.WordLengthUnique | internal/presto/readquery.go:183-191 | the leading word is the only run of word bytes at the start that no word byte follows |
| Lexer.WordBytes | internal/presto/readquery.go:212-214 | word bytes are the ASCII letters and the underscore, by their codes |
| Lexer.SkipParenGroup | internal/presto/readquery.go:253-273 | the loop, with its jumps over literals, drops the balanced group or everything |
| Lexer.GroupEndExact | internal/presto/readquery.go:251-252 | what is dropped is the only, hence the shortest, prefix balanced in parentheses outside single-quoted literals; there is no end exactly when no prefix is balanced |
| Lexer.StripExplainOptions | internal/presto/readquery.go:195-210 | the loop removes options, groups and trivia |
| Lexer.StripOptionsMaximal | internal/presto/readquery.go:193-210 | what is left is a suffix that starts with no option and no trivia, and stripping it again changes nothing |
| Guard.CheckStatement | internal/presto/readquery.go:75-90 | the checker returns the verdict of Check, with the reason of a refusal |
| Guard.ValidateReadOnly | internal/presto/readquery.go:54-70 | the guard returns the verdict of Validate, with the reason of a refusal |
| Grammar.ParseTrivia | internal/presto/readquery.go:157-170 | whatever stripping removes prints from trivia tokens, up to a comment that the end cuts off |
| Grammar.StripOptionTokens | internal/presto/readquery.go:195-210 | printed EXPLAIN options are stripped, whatever follows them |
| Grammar.ParseOptions | internal/presto/readquery.go:195-210 | when a word is left, whatever was stripped before it prints from option tokens |
| Grammar.SpellsReadOnly | internal/presto/readquery.go:39-47 | the guard's set of upper-case keywords lets exactly the words pass that spell SELECT, WITH, VALUES, TABLE, SHOW, DESCRIBE or DESC, each letter capital or small |
| Grammar.SpellsExplain | internal/presto/readquery.go:76-80 | what the guard takes for EXPLAIN is exactly what spells it that way |
| Grammar.SpellsOption | internal/presto/readquery.go:202-206 | and what it takes for an option word is exactly what spells ANALYZE or VERBOSE |
| Acceptance.CheckExact | internal/presto/readquery.go:72-90 | the verdict on a statement is that of the one word that decides its phrase, and "unknown" exactly when it starts with no phrase |
| Acceptance.AcceptsReadOnly | internal/presto/readquery.go:36-47 | a statement is accepted exactly when it starts with a phrase whose deciding word spells one of those seven keywords in any letter case |
| Acceptance.ReasonsExact | internal/presto/readquery.go:72-90 | every verdict of the checker from the spelling of the deciding word: accepted, nested EXPLAIN, refused under its capital spelling, or unknown without a phrase |
| Language.GuardAcceptsLanguage | internal/presto/readquery.go:49-70 | ValidateReadOnly is sound and complete for the grammar of single read-only statements |
| Language.TrailingSpaces | internal/presto/readquery.go:64 | white space at the end never decides whether a statement is read-only |
| Language.TriviaNeutral | internal/presto/readquery.go:129-155 | complete white space and comments hold no separator and leave the scan outside quotes and comments |
| Language.CommentaryExact | internal/presto/readquery.go:59-63 | stripping leaves nothing exactly of texts made of trivia, the last comment possibly cut off |
| GuardLaws.VerdictExact | internal/presto/readquery.go:54-70 | the verdict on every text with the reason of every refusal, from what stands before and behind its first separator |
| GuardLaws.AcceptedExact | internal/presto/readquery.go:54-70 | a text is accepted exactly when only an ending follows its first separator and what stands before is, trimmed, a statement whose deciding word spells a read-only keyword; refused under a word exactly when it spells that word |
| GuardLaws.WhiteSpacePrefix | internal/presto/readquery.go:55 | white space in front never changes the verdict |
| GuardLaws.CommentPrefix | internal/presto/readquery.go:157-181 | complete comments in front keep a text accepted exactly when it does not start with wide white space |
| GuardLaws.CommentBeforeWideSpace | internal/presto/readquery.go:160 | that condition is needed: a concrete accepted text is rejected with a comment in front |
| GuardLaws.TrailingSeparator | internal/presto/readquery.go:59-68 | a `;` and commentary after a text that has no separator and ends outside quotes and comments change neither verdict nor reason |
| TrailingLaws.WhiteSpaceSuffix | internal/presto/readquery.go:55 | white space behind a text changes neither verdict nor reason |
| TrailingLaws.CommentSuffix | internal/presto/readquery.go:54-70 | complete comments and white space behind a text that has no separator and ends outside quotes and comments never change whether it is accepted, exactly when the text leaves no group or comment among EXPLAIN options open |
| TrailingLaws.CommentClosesGroup | internal/presto/readquery.go:251-273 | that condition is needed: a concrete refused text is accepted with a comment behind it |
| ExplainLaws.ExplainExact | internal/presto/readquery.go:54-90 | EXPLAIN with any options, groups included, is accepted exactly when no separator lies in front of the inner word, that word is allow-listed, and only an ending follows the first separator met from the state in which the scan leaves the options |
| ExplainLaws.TransparentExact | internal/presto/readquery.go:80-85 | EXPLAIN with its options leaves acceptance unchanged for every statement that does not itself start with EXPLAIN, which it refuses, exactly when the options hold no separator and leave the scan outside quotes and comments |
| ExplainLaws.WordHeadNeutral | internal/presto/readquery.go:193-210 | with comments, ANALYZE and VERBOSE as the only options that always holds |
| ExplainLaws.DecidingWordRead | internal/presto/readquery.go:129-155 | the scan for separators reads the deciding word outside quotes and comments exactly when the statement is no EXPLAIN or its options leave the scan there; whether that word comes first is another matter |
| ExplainLaws.GroupHidesSeparator | internal/presto/readquery.go:251-273 | the condition is needed: a concrete text of two statements passes behind a group that opens a comment, and is refused alone |
| ExplainLaws.GroupHidesWord | internal/presto/readquery.go:251-273 | behind that group the deciding word can lie in a comment, with a refused word the only one outside |
| ExplainOptions.ReadGroupEndExact | internal/presto/readquery.go:129-155 | a group as the scan for separators reads it, parentheses counting outside quotes and comments only, is the one balanced prefix of that kind |
| ExplainOptions.DecidingWordFirst | internal/presto/readquery.go:80-85 | behind EXPLAIN the deciding word is the first one that the scan for separators reads behind the options exactly when the options are a run of complete options for that scan |
| ExplainOptions.SameVerdict | internal/presto/readquery.go:72-90 | then reading the options by either scan gives the same verdict |
| ExplainOptions.AcceptedReads | internal/presto/readquery.go:36-47 | every accepted text holds a statement whose deciding word is allow-listed; under that condition it is the first word behind the options for the scan for separators too, and read outside quotes and comments |
| ExplainOptions.AlikeIsRun | internal/presto/readquery.go:193-210 | options meet the condition when no parenthesis or single quote of a group lies inside a comment or double quotes |
| ExplainOptions.NeutralGroupHidesWrite | internal/presto/readquery.go:251-273 | transparency is not enough: a concrete accepted text whose EXPLAIN is transparent has INSERT as the first word behind its options for the scan for separators |
| Identifiers.ReadIdentOfQuoted | internal/presto/client.go:452-456 | for every name and every rest that starts with no quote, the scanner stops exactly behind the printed identifier and un-doubling its body gives the name |
| Identifiers.ReadTableOfFqTable | internal/presto/client.go:458-460 | a qualified table name splits back into its three names |
| Identifiers.FqTableInjective | internal/presto/client.go:458-460 | different names give different qualified table names |
| Identifiers.QuoteIdentNeutral | internal/presto/client.go:452-456 | a printed identifier holds no separator and is complete, whatever bytes the name has |
| Identifiers.MetadataAccepted | internal/presto/client.go:271-314 | every metadata statement passes the guard, holds no separator and ends outside quotes, for all names |
| Identifiers.SqlInjective | internal/presto/client.go:271-371 | two requests with the same statement are the same request: no name can imitate another request |
| Identifiers.SqlReads | internal/presto/client.go:271-371 | each metadata statement word by word: its fixed text, then the names, which read back in the order catalog, schema, table |
| Paging.ClampMaxRows | internal/presto/readquery.go:113-122 | the cap is positive and at most 10000: the caller's own number when that is in range, 1000 when none is given, 10000 when too much is asked for |
| Paging.Coordinator.Send | internal/presto/client.go:191-205 | one request is logged and the next reply consumed |
| Paging.Coordinator.Cancel | internal/presto/readquery.go:275-291 | at most one DELETE is logged, none when the URL does not parse, and no reply is consumed |
| Paging.Client.CollectRows | internal/presto/client.go:138-188 | result, requests and consumed replies of the loop are those of the run function |
| Paging.CollectRunExact | internal/presto/client.go:138-149 | nothing is sent without a credential or to an endpoint that does not parse, with the failure for each; otherwise the first request carries statement, credential, catalog and schema as given |
| Paging.CollectExact | internal/presto/client.go:151-187 | every run in closed form: its outcome, its requests and what it leaves unread, from the first page that stops it |
| Paging.OutcomeExact | internal/presto/client.go:151-187 | success and each failure, by the reply that stops the run |
| Paging.RowsInOrder | internal/presto/client.go:170 | the rows of every page stand in the result in order of arrival |
| Paging.ColumnsAreFirst | internal/presto/client.go:167-169 | the columns are those of the first page that names any |
| Paging.UncappedReturnsAll | internal/presto/client.go:119-132 | the unbounded run succeeds exactly when the first stopping page is a last page, and returns every row up to it |
| Paging.TighterCapRefines | internal/presto/client.go:170-177 | a tighter cap succeeds where a wider one does, returns its rows cut to the cap, reports truncation exactly when rows are lost, and requests a prefix of its pages |
| Paging.CappedRefinesUncapped | internal/presto/client.go:134-137 | where the unbounded run succeeds, the capped run returns its first rows and reports truncated exactly when there are more |
| Paging.CapHolds | internal/presto/client.go:171-172 | no run returns more rows than its cap, and truncation means that the cap is filled |
| Paging.CancelDiscipline | internal/presto/client.go:151-187 | every request field by field: the statement is posted, each page is got from the canonical nextUri of the page before, in the same session; then at most one DELETE, exactly after a lost GET, aimed at that page, or on truncation with a next page, aimed at that one, and only where the URL parses |
| Paging.PostsOnce | internal/presto/client.go:144-149 | the statement is posted once, first, with all fields of the call, and nothing else is posted |
| Paging.CappedRunIsShort | internal/presto/client.go:170-186 | with a cap and no empty page at most cap + 1 pages are requested, and cap + 2 requests sent |
| Paging.CappedRunLooksNoFurther | internal/presto/client.go:170-186 | such a run is settled by the first cap + 1 replies, whatever the coordinator still offers |
| ReadClient.RunReadQuery | internal/presto/readquery.go:95-111 | a refused statement sends nothing; an accepted one gives the capped run |
| ReadClient.ReadQueryBounded | internal/presto/readquery.go:14-20 | a read query returns at most 10000 rows, and at most what the caller asked for |
| ReadClient.RunMetadata | internal/presto/client.go:122-132 | a metadata statement gives the unbounded run outside any session, with its result set |
| ReadClient.NamedExact | internal/presto/client.go:122-132 | that result set holds all rows of the run and its column names in order, and is absent exactly on failure |
| ReadClient.FirstRequests | internal/presto/readquery.go:95-98 | a read query is posted with its catalog and schema, a metadata statement with none |
| ReadClient.EverPosted | internal/presto/readquery.go:92-111 | over every sequence of read queries and metadata requests, the statements posted are exactly the accepted ones that can be sent, each once and in order |
| ReadClient.RunsOnlyRead | internal/presto/readquery.go:92-98 | no sequence of operations ever posts a statement that the guard rejects |
| Descriptors.LeExact | internal/normalize/querydetail.go:262 | the order of the keys is byte order: a prefix first, otherwise the first byte that differs decides |
| Descriptors.DescribePlan | internal/normalize/querydetail.go:254-273 | the walk in unspecified order, the sort and the rendering give the one description of the map |
| Descriptors.OrderIrrelevant | internal/normalize/querydetail.go:253 | any two walks over the same map sort to the same keys and render the same string |
| Descriptors.SortEnumerates | internal/normalize/querydetail.go:262 | sorting keeps each key exactly once and orders the keys byte by byte |
| Descriptors.RenderedFromFront | internal/normalize/querydetail.go:263-272 | the rendering is the first pair as key, "=", value and then every other pair behind ", " |
| Descriptors.DescribeInjective | internal/normalize/querydetail.go:254-273 | maps with the same description are equal when no key holds "=" and no pair ", " |
| Descriptors.DescribeLosesPairs | internal/normalize/querydetail.go:254-273 | that condition is needed: two different maps with the same description |
| Plans.FlattenPlan | internal/normalize/querydetail.go:240-251 | the walk changes nothing before it and appends, node by node in preorder, the id, name and rendered descriptor of the node, the id of the node above it and the stage id |
| Plans.FlattenCarries | internal/normalize/querydetail.go:240-251 | the flattened outline carries exactly the nodes of the plan tree, field by field |
| Plans.RebuildExact | internal/normalize/querydetail.go:94-101 | the rebuild that links each entry to the deepest open node of its parent's id returns the original tree exactly when no node shares its id with an open node of an earlier child |
| Plans.DistinctDeepestLinked | internal/normalize/querydetail.go:94-101 | unique ids are enough for that |
| Plans.DeepestLinkedInjective | internal/normalize/querydetail.go:240-251 | among the trees linked that way no two have the same list |
| Plans.FlattenInjective | internal/normalize/querydetail.go:240-251 | with unique ids equal lists come from equal trees: shape, ids, names, details and order of children |
| Plans.PlanInjective | internal/normalize/querydetail.go:240-251 | with unique ids and such descriptors the list determines the whole plan, descriptor maps included |
| Ambiguity.OneTreeExact | internal/normalize/querydetail.go:240-251 | a list comes from one tree only exactly when, at every entry, no second open node carries the parent's id from which the rest of the list could still be hung |
| Ambiguity.DistinctOneTree | internal/normalize/querydetail.go:94-101 | unique ids pass that check |
| Ambiguity.OneTreeRebuilt | internal/normalize/querydetail.go:94-101 | a list with one tree only is rebuilt to that tree |
| Ambiguity.RepeatedIdsLoseShape | internal/normalize/querydetail.go:240-251 | two different trees with the same list, one of which the rebuild returns: being rebuilt is less than being determined |
| Stages.StagesFromLive | internal/normalize/querydetail.go:174-195 | one entry per stage, in preorder, each of its nine fields from the figure it stands for |
| Stages.PreorderBlocks | internal/normalize/querydetail.go:190-192 | a stage comes before its sub-stages, which follow one whole tree after the other in their own order |
| Stages.PlanFromLive | internal/normalize/querydetail.go:222-238 | the flattened plans that decode, one after the other in the same preorder |
| Stages.PlanOfExact | internal/normalize/querydetail.go:226-231 | a stage contributes nothing exactly when its plan is missing, empty or does not decode; otherwise the nodes of its plan under its own id |
| Stages.StageBlocks | internal/normalize/querydetail.go:222-238 | with distinct stage ids the plan list is one contiguous block per stage in the order of the stage list, and a stage id selects exactly its block |
| Stages.SelectExact | internal/normalize/querydetail.go:222-238 | whatever the stage ids, an id selects the blocks of all stages that carry it, in order |
| Stages.BlockSelected | internal/normalize/querydetail.go:222-238 | an id selects just the block of one stage exactly when the other stages of that id have no plan that decodes |
| Stages.StagePlanRecovered | internal/normalize/querydetail.go:94-101 | selecting by stage id and rebuilding returns the plan of a stage exactly when the other stages of that id have none and every link in that plan is to the deepest open node of its id |
| Stages.DistinctRecovered | internal/normalize/querydetail.go:94-101 | with distinct stage ids the links alone decide |
| Config.Document.ApplyDefaults | internal/config/config.go:181-213 | mode, transport and, field by field, every engine are filled in in place: local, http exactly in enterprise mode else stdio, passthrough exactly in enterprise mode else static, presto, bearer, and the user presto-mcp exactly for a static engine without one that is not basic |
| Config.FilledExact | internal/config/config.go:192-213 | that field-by-field description is the defaulting function |
| Config.DefaultsKeepExplicit | internal/config/config.go:180 | explicit values are kept, the basic scheme never gets a user, and a second pass changes nothing |
| Config.Document.Validate | internal/config/config.go:216-249 | the first problem in the order of the checks, or none |
| Config.EngineProblemExact | internal/config/config.go:268-314 | an engine passes exactly when it is valid; the basic scheme needs a user, a password reference and https |
| Config.EngineProblemIs | internal/config/config.go:268-314 | for each of the twelve problems of an engine, exactly when it is the one reported |
| Config.HeaderProblemExact | internal/config/config.go:216-266 | the header passes exactly when mode and transport are known and, over http, there is a port, TLS references come in pairs and the edge uses RS256 with a key |
| Config.HeaderProblemIs | internal/config/config.go:216-266 | for each problem of the header, exactly when it is the one reported |
| Config.ProblemExact | internal/config/config.go:215-249 | a document passes exactly when its header is valid, it has an engine, all engines are valid and no id repeats |
| Config.ProblemIs | internal/config/config.go:215-249 | which problem of a document is reported: the header's, no engines, or the first engine that is invalid or repeats an id, with its index or id |
| Registry.BuildWires | internal/registry/registry.go:45-60 | a built engine has its own configuration, the header prefix of its dialect, and a provider that holds the user and the resolved secret |
| Registry.BuildErrorIs | internal/registry/registry.go:89-106 | for each error of construction, exactly when it is the one reported |
| Registry.ValidatedEngineBuilds | internal/registry/registry.go:45-60 | a validated engine is built exactly when it is not wxd, enables no history, the reference it needs resolves and static credentials name a user |
| Registry.DefaultedEngineBuilds | internal/registry/registry.go:45-60 | after defaults the last condition always holds |
| Registry.ValidatedButUnbuildable | internal/credential/credential.go:88-91 | without defaults that condition is needed: a concrete valid engine that lacks only the user |
| Registry.RegistrySucceeds | internal/registry/registry.go:37-62 | a defaulted and validated document yields a registry exactly when every engine is buildable |
| Registry.New | internal/registry/registry.go:37-62 | the error of the first engine that does not build, or the order of all engines and an index whose every engine is wired from one configured under its id |
| Registry.FirstFailureIs | internal/registry/registry.go:41-60 | the error reported is that of the first engine that does not build |
| Registry.IndexHoldsLast | internal/registry/registry.go:56-57 | under an id that repeats the index holds the engine configured last |
| Registry.ListExact | internal/registry/registry.go:77-84 | listing follows the configuration exactly when engines that share an id build the same engine |
| Registry.IndexIsLinearSearch | internal/registry/registry.go:64-68 | with distinct ids the index finds what a linear search over the configuration finds |
| Registry.Registry.List | internal/registry/registry.go:77-84 | the engines in configuration order |
| Registry.Registry.IDs | internal/registry/registry.go:70-75 | a copy of the ids in configuration order |
| Registry.Load | internal/config/config.go:173-177 | defaults, validation and construction together: the document is defaulted, the problem is the one that validation finds, and without one a registry that agrees with the configuration is built exactly when every engine is buildable, else the error is that of the first engine that fails |

## Left out

- HTTP transport, TLS, timeouts and response bodies: a reply is a page, an undecodable body or a failure.
- The bytes of request headers: a request carries the credential, catalog and schema that the headers are made from.
- JSON and YAML decoding, URL parsing and the resolution of `env://` and `file://` references are parameters.
- Injected credential and history factories: construction is modelled with the default ones.
- Rendering cells as text; `DescribeTable`, `GetTableStats` and the node list, which only copy cells into fields.
- How durations and data sizes are read, which is float arithmetic: the two parsers are parameters.
- `QueryDetailFromLive`, the query summary and the operator list copy fields and would only add easy members.
- The difference between a nil and an empty slice of rows.
- Query lists and their time filters, which are library time parsing and one filter.
- The MCP server, tool handlers, origin guard and token verification at the edge.
- The engine's own SQL grammar: the guard is specified by its own lexical rules.
