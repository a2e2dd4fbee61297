# isched back end: a verified model

A Dafny model of the C++ back end of isched, a GraphQL application server, and
proofs of what its trickiest parts promise. `dafny verify dfyconfig.toml` checks
the whole project.

| files | component |
|---|---|
| GlobSegment, GlobWalk, GlobLaws, Lexicographic | glob: the matcher that backtracks to the last `*` only, the directory walk with `**`, sorting |
| SubscriptionIndex, SubscriptionBroker, AuthSessions | the subscription broker: dense vector with swap-with-last removal, id map and two indices; authentication sessions |
| Ast, QueryAnalysis, ResolverRegistry, Execution, ExecutionProperties, ExecutionLaws, Documents, DocumentLaws, Executor | the GraphQL executor: limits, role gates, resolver trie, selection-set execution |
| SchemaMap, SchemaLaws, QueryCache | the schema type map; the cache of parsed queries under concurrency |
| Metrics | the lock-free request counters as interleaved atomic steps |
| RateLimiter, LoginLockout | the token bucket and the login lockout over whole runs |
| Numerals, PasswordHash | the text form of stored password hashes |
| Snapshots, ConnectionPool, WsSession | configuration snapshots and rollback, the connection pool, one WebSocket session |

Code that changes state is modelled by classes and loops with the same branches
and tests; each is proved against functions on values, and the promises
are then proved about those functions, for all inputs and all runs; the modules
whose names end in Laws say in plain terms what the functions amount to. Concurrent
code is modelled by its atomic steps (a lock section is one step), in any
interleaving.

Places where the program differs from its own comments, or from what it seems to promise:

- glob: an unclosed bracket is said to be compared literally
  (isched_fs_utils.cpp:57-60); no name ever matches such a pattern
  (`MalformedPatternDenotesNothing`, `UnclosedBracketIsNotLiteral`).
- Rate limiter: the maximum is said to hold per 60-second window
  (isched_RateLimiter.hpp:80); it holds exactly for windows shorter than one
  token takes (`DocumentedLimitHoldsIff`). The maximum given on later calls of
  an address is ignored (`LaterMaximaAreIgnored`), so it is respected exactly
  when it is at least the first (`LaterMaximumRespectedIff`).
- Metrics: errors of an interval may exceed its requests, though not before an
  interval has passed (`ErrorsStayWithinRequestsIff`), nor without overlapping
  calls except during a reset (`OneAtATimeStaysWithin`).
- Rollback is described as returning to the snapshot activated before
  (isched_GqlExecutor.cpp:1209). It goes by creation time, so it does exactly when
  that is the next older snapshot, or the newest after the oldest
  (`RollbackReturnsToPreviousIff`). Its fallback is described as the second
  snapshot (line 1250) and never is (`FallbackIsNeverSecond`). Creation times
  are stored in seconds; the order is determined exactly when no two snapshots
  share one (`ListingUniqueIff`).
- Revoking is documented as reaching all sockets that used an authentication
  session (isched_SubscriptionBroker.hpp:138). Registering one session from
  two sockets overwrites the first (isched_SubscriptionBroker.cpp:365), so
  revoking closes at most the last one, and none when the first has closed
  since (`RevokeMissesSocketExample`). The promise is kept throughout a run exactly
  when that never happens (`RevokesAllIffOneSocketEach`).
- Execution is the program's own, which is not that of sections 6.3 and 6.4 of the
  GraphQL specification (October 2021). For example, a field is known by the
  text of its first child, which is the alias when there is one; a field
  without a resolver copies the parent's value whole
  (`UnresolvedFieldIsCopied`); a repeated key is overwritten (`LastFieldWins`);
  fragments are skipped; `@skip` and `@include` are not evaluated; leaf values
  are not coerced; a null in a non-null place does not propagate.
- Type map: the kinds listed at isched_GqlExecutor.cpp:61-79 count as definitions
  when they have a name: types, directives, arguments, input fields, fragments
  and variables, but not fields or enum values. So an argument may shadow a type
  (`ArgumentShadowsItsType`, `DefinitionStaysIff`).
- WebSocket: subscribing an operation again while its subscription is live puts
  the first one out of reach (`SubscribeTwice`); no message of the session
  brings it back, so it stays until the broker drops the session's
  subscriptions (`HandleMessage`, `BrokerDisconnects`).

## Model

| member | source | states |
|---|---|---|
| `GlobSegment.WildcardMatchSegment` | src/main/cpp/isched/shared/fs/isched_fs_utils.cpp:65-97 | the matcher that only remembers the last `*` answers true exactly for the names of the pattern's language (one piece of the name per token), and terminates on every pattern and name |
| `GlobSegment.MatchesIffDenotes` | src/main/cpp/isched/shared/fs/isched_fs_utils.cpp:65-97 | matching position by position decides the language given by cutting the name into pieces |
| `GlobSegment.ReachStar` | src/main/cpp/isched/shared/fs/isched_fs_utils.cpp:70-72 | subsumption: when a newer `*` replaces the remembered one, whatever the older one could still match is matched from the newer one |
| `GlobSegment.Advance` | src/main/cpp/isched/shared/fs/isched_fs_utils.cpp:73-76 | consuming a character for a one-character token keeps the overall answer undecided in the same way, also when the cursor ran past an unclosed bracket |
| `GlobSegment.Retry` | src/main/cpp/isched/shared/fs/isched_fs_utils.cpp:77-91 | a dead end refutes the match when there is no remembered star; otherwise the answer is that of resuming the star one character further |
| `GlobSegment.NameExhausted` | src/main/cpp/isched/shared/fs/isched_fs_utils.cpp:94-96 | once the name is used up, no retry of the remembered star could change the answer |
| `GlobSegment.HopsConsume` | src/main/cpp/isched/shared/fs/isched_fs_utils.cpp:73-86 | between stars every token consumes exactly one character of the name |
| `GlobSegment.MatchCharClass` | src/main/cpp/isched/shared/fs/isched_fs_utils.cpp:35-63 | the bracket scan answers whether the character is in the class (ranges in either order, negation) and leaves the cursor on the closing bracket, or past the end with the literal comparison when there is none |
| `GlobSegment.InBodyIffInClass` | src/main/cpp/isched/shared/fs/isched_fs_utils.cpp:44-55 | what the scan finds bracket item by bracket item is membership in the class read from the text |
| `GlobSegment.MatchOne` | src/main/cpp/isched/shared/fs/isched_fs_utils.cpp:73-86 | one non-star step: whether the character fits the token at the cursor and where the cursor then stands |
| `GlobSegment.BrokenIffMalformed` | src/main/cpp/isched/shared/fs/isched_fs_utils.cpp:56-61 | a token list contains a malformed token exactly when scanning reaches an unclosed bracket or a trailing backslash |
| `GlobSegment.MalformedPatternDenotesNothing` | src/main/cpp/isched/shared/fs/isched_fs_utils.cpp:56-61 | a pattern with an unclosed bracket or a trailing backslash matches no name at all  |
| `GlobSegment.UnclosedBracketIsNotLiteral` | src/main/cpp/isched/shared/fs/isched_fs_utils.cpp:56-61 | in particular `[` and any text without `]` does not match the name of the same text, as a literal comparison would |
| `GlobSegment.EscapeRoundTrip` | src/main/cpp/isched/shared/fs/isched_fs_utils.cpp:79-84 | a name with every character escaped is a pattern for that name and for nothing else |
| `GlobWalk.Collector.Collect` | src/main/cpp/isched/shared/fs/isched_fs_utils.cpp:99-141 | the walk adds exactly the paths the remaining segments select below the directory, in any listing order, and terminates |
| `GlobWalk.Collector.CollectSubdirectories` | src/main/cpp/isched/shared/fs/isched_fs_utils.cpp:124-130 | keeping `**` in every subdirectory adds exactly what `**` selects strictly below |
| `GlobWalk.Collector.CollectMatching` | src/main/cpp/isched/shared/fs/isched_fs_utils.cpp:134-140 | an ordinary segment is followed into exactly the entries whose name is in its language |
| `GlobWalk.DoubleStarUnfolds` | src/main/cpp/isched/shared/fs/isched_fs_utils.cpp:120-131 | `**` spanning any number of directories equals: nothing, or one subdirectory and `**` again |
| `GlobWalk.DoubleStarTwice` | src/main/cpp/isched/shared/fs/isched_fs_utils.cpp:157-162 | two adjacent `**` select what one selects, in every tree |
| `GlobWalk.SameSelectionAfter` | src/main/cpp/isched/shared/fs/isched_fs_utils.cpp:157-162 | segment lists that select the same paths still do so behind any common prefix |
| `GlobWalk.CollapseDoubleStars` | src/main/cpp/isched/shared/fs/isched_fs_utils.cpp:157-162 | the collapsed pattern has no adjacent `**` and selects the same paths in every tree |
| `GlobWalk.SplitSegments` | src/main/cpp/isched/shared/fs/isched_fs_utils.cpp:19-33 | the character loop computes the segments of the path text |
| `GlobWalk.SplitUndoesJoin` | src/main/cpp/isched/shared/fs/isched_fs_utils.cpp:19-33 | splitting undoes joining segments with any number of slashes |
| `GlobWalk.SegmentsAreSegments` | src/main/cpp/isched/shared/fs/isched_fs_utils.cpp:23-31 | segments are never empty and hold no slash |
| `GlobWalk.Glob` | src/main/cpp/isched/shared/fs/isched_fs_utils.cpp:143-169 | the result is strictly increasing in path order and holds exactly the paths the pattern selects, all of which exist |
| `GlobWalk.GlobIsDeterministic` | src/main/cpp/isched/shared/fs/isched_fs_utils.cpp:165-168 | two runs that listed directories differently give the same result |
| `GlobWalk.PathOrder` | src/main/cpp/isched/shared/fs/isched_fs_utils.cpp:166 | path comparison is a strict total order, so sorting determines the result |
| `GlobLaws.QuestionMark` | src/main/cpp/isched/shared/fs/isched_fs_utils.cpp:73-74 | `?` and a pattern stand for one character and what the pattern stands for |
| `GlobLaws.StarLaw` | src/main/cpp/isched/shared/fs/isched_fs_utils.cpp:70-72 | `*` and a pattern stand for what the pattern stands for behind any text |
| `GlobLaws.PlainCharacter` | src/main/cpp/isched/shared/fs/isched_fs_utils.cpp:85-86 | a character without a meaning of its own stands for itself |
| `GlobLaws.EscapedCharacter` | src/main/cpp/isched/shared/fs/isched_fs_utils.cpp:79-84 | a character behind a backslash stands for itself, whatever it is |
| `GlobLaws.TrailingBackslash` | src/main/cpp/isched/shared/fs/isched_fs_utils.cpp:79-84 | a pattern that is a lone backslash matches nothing |
| `GlobLaws.EmptyPattern` | src/main/cpp/isched/shared/fs/isched_fs_utils.cpp:65-97 | the empty pattern stands for the empty name |
| `GlobLaws.UnclosedBracket` | src/main/cpp/isched/shared/fs/isched_fs_utils.cpp:56-61 | `[` without a closing bracket behind it matches nothing |
| `GlobLaws.Bracket` | src/main/cpp/isched/shared/fs/isched_fs_utils.cpp:35-63 | a closed bracket stands for one character covered by one of its members and ranges, taken in either order of signed bytes, or with `!` or `^` for one that none covers |
| `GlobLaws.ItemsRead` | src/main/cpp/isched/shared/fs/isched_fs_utils.cpp:43-55 | the text written from members and ranges is read as these, up to its closing bracket |
| `GlobLaws.PlainNameDenotes` | src/main/cpp/isched/shared/fs/isched_fs_utils.cpp:65-97 | a name without special characters is a pattern for itself only |
| `GlobLaws.PlainPath` | src/main/cpp/isched/shared/fs/isched_fs_utils.cpp:99-141 | a path of plain names selects itself, where it exists |
| `GlobLaws.Dots` | src/main/cpp/isched/shared/fs/isched_fs_utils.cpp:110-118 | behind plain names `.` stays at the path and `..` goes to its parent |
| `GlobLaws.AnyDepth` | src/main/cpp/isched/shared/fs/isched_fs_utils.cpp:120-141 | `**` and a plain name select all paths below that end in the name, at any depth |
| `GlobLaws.PathsInOrder` | src/main/cpp/isched/shared/fs/isched_fs_utils.cpp:166 | behind common directories and a common start of a name the lower character comes first, as does the name that ends |
| `GlobLaws.DirectoryFirst` | src/main/cpp/isched/shared/fs/isched_fs_utils.cpp:166 | a directory comes before what is in it |
| `Lexicographic.SortUnique` | src/main/cpp/isched/shared/fs/isched_fs_utils.cpp:165-167 | sorting and dropping duplicates gives the strictly sorted enumeration of the elements |
| `Lexicographic.StrictlySortedUnique` | src/main/cpp/isched/shared/fs/isched_fs_utils.cpp:165-167 | a set has only one strictly sorted enumeration |
| `SubscriptionIndex.PickRemoved` | src/main/cpp/isched/backend/isched_SubscriptionBroker.cpp:82-85 | removing a position from a bucket takes exactly that record out of what the bucket picks |
| `SubscriptionIndex.RemapPointwise` | src/main/cpp/isched/backend/isched_SubscriptionBroker.cpp:87-96 | renaming the first occurrence renames every one, because buckets hold no duplicates |
| `SubscriptionIndex.MovedPicks` | src/main/cpp/isched/backend/isched_SubscriptionBroker.cpp:136-157 | moving the last record into the gap and renaming its position changes nothing a bucket picks, nor its order |
| `SubscriptionIndex.ErasedBucketPicks` | src/main/cpp/isched/backend/isched_SubscriptionBroker.cpp:124-160 | after an erase a bucket picks the live subscriptions of its key without the erased one, in subscribe order |
| `SubscriptionIndex.ErasedIndexBuckets` | src/main/cpp/isched/backend/isched_SubscriptionBroker.cpp:133-155 | updating the two buckets of the removed and the moved record amounts to updating every bucket |
| `SubscriptionIndex.ErasedIndexAgrees` | src/main/cpp/isched/backend/isched_SubscriptionBroker.cpp:98-122 | a secondary index stays exact: no stale position, no empty bucket, no duplicate |
| `SubscriptionIndex.ErasedAgrees` | src/main/cpp/isched/backend/isched_SubscriptionBroker.cpp:124-160 | vector, id map and both indices agree with the list of live subscriptions after an erase |
| `SubscriptionIndex.PushedAgrees` | src/main/cpp/isched/backend/isched_SubscriptionBroker.cpp:187-191 | they agree after a subscription is appended |
| `SubscriptionIndex.WithoutOne` | src/main/cpp/isched/backend/isched_SubscriptionBroker.cpp:207-236 | exactly one subscription goes when its id is removed |
| `SubscriptionIndex.RunFrom` | src/main/cpp/isched/backend/isched_SubscriptionBroker.cpp:180-276 | running any history from any list leaves the survivors of the list followed by the survivors of the history |
| `SubscriptionIndex.HistoryDecidesDelivery` | src/main/cpp/isched/backend/isched_SubscriptionBroker.cpp:282-317 | after any history a topic is delivered to exactly the subscriptions never removed, in subscribe order |
| `SubscriptionBroker.RenameIndex` | src/main/cpp/isched/backend/isched_SubscriptionBroker.cpp:87-96 | the early-returning loop renames the first occurrence |
| `SubscriptionBroker.EraseRecord` | src/main/cpp/isched/backend/isched_SubscriptionBroker.cpp:124-160 | swap-with-last removal touching only the buckets concerned keeps all indices in agreement with the list without that record |
| `SubscriptionBroker.AddRecord` | src/main/cpp/isched/backend/isched_SubscriptionBroker.cpp:187-192 | appending keeps all indices in agreement with the list extended at its end |
| `SubscriptionBroker.SubIdInjective` | src/main/cpp/isched/backend/isched_SubscriptionBroker.cpp:28-32 | subscription ids made from different counter values differ |
| `SubscriptionBroker.LaterIsFresh` | src/main/cpp/isched/backend/isched_SubscriptionBroker.cpp:28-32 | a later counter value gives an id not issued before |
| `SubscriptionBroker.NextIdIsFresh` | src/main/cpp/isched/backend/isched_SubscriptionBroker.cpp:28-32 | the next id is neither in use nor handed out and waiting for its registration |
| `SubscriptionBroker.SubscriptionBroker.MakeSubscriptionId` | src/main/cpp/isched/backend/isched_SubscriptionBroker.cpp:28-32 | an id is new even among ids taken but not yet registered by other threads |
| `SubscriptionBroker.RegisteredAccounted` | src/main/cpp/isched/backend/isched_SubscriptionBroker.cpp:186-193 | an id handed out is not in use, and becomes one in use |
| `SubscriptionBroker.SubscriptionBroker.IdTakenElsewhere` | src/main/cpp/isched/backend/isched_SubscriptionBroker.cpp:28-32 | the counter is shared by the process: ids taken by other brokers keep every invariant |
| `SubscriptionBroker.SubscriptionBroker.RegisterSubscription` | src/main/cpp/isched/backend/isched_SubscriptionBroker.cpp:186-193 | the locked part appends the subscription to the live list, in any order of id issue |
| `SubscriptionBroker.SubscriptionBroker.Subscribe` | src/main/cpp/isched/backend/isched_SubscriptionBroker.cpp:180-205 | the subscription is appended under an unused id and the new count reported |
| `SubscriptionBroker.SubscriptionBroker.EraseSubscriptionAt` | src/main/cpp/isched/backend/isched_SubscriptionBroker.cpp:124-160 | an invalid position changes nothing; a valid one removes that one subscription |
| `SubscriptionBroker.SubscriptionBroker.Unsubscribe` | src/main/cpp/isched/backend/isched_SubscriptionBroker.cpp:207-236 | removes the subscription with this id and no other; the count is reported exactly when something was removed |
| `SubscriptionBroker.SubscriptionBroker.DisconnectSession` | src/main/cpp/isched/backend/isched_SubscriptionBroker.cpp:238-276 | removes exactly the session's subscriptions, keeps the order of the others, terminates |
| `SubscriptionBroker.SubscriptionBroker.NoBucketNoRecords` | src/main/cpp/isched/backend/isched_SubscriptionBroker.cpp:244-253 | a session has a bucket exactly when it has subscriptions |
| `SubscriptionBroker.SubscriptionBroker.Publish` | src/main/cpp/isched/backend/isched_SubscriptionBroker.cpp:282-317 | calls the handlers of the topic's live subscriptions, once each, oldest first |
| `SubscriptionBroker.SubscriptionBroker.GetSubscriberCount` | src/main/cpp/isched/backend/isched_SubscriptionBroker.cpp:323-343 | counts the topic's live subscriptions, all of them for the empty topic |
| `SubscriptionBroker.SubscriptionBroker.RegisterAuthSession` | src/main/cpp/isched/backend/isched_SubscriptionBroker.cpp:355-369 | updates both maps as specified and no subscription |
| `SubscriptionBroker.SubscriptionBroker.UnregisterAuthSession` | src/main/cpp/isched/backend/isched_SubscriptionBroker.cpp:371-377 | removes the socket's entry and what it points to |
| `SubscriptionBroker.SubscriptionBroker.ForgetAuthSession` | src/main/cpp/isched/backend/isched_SubscriptionBroker.cpp:384-391 | the first locked step of revoking touches the two maps only; every other step may come after it |
| `SubscriptionBroker.SubscriptionBroker.RevokeAuthSession` | src/main/cpp/isched/backend/isched_SubscriptionBroker.cpp:379-408 | with nothing in between, forgets the session, drops its socket's subscriptions and hands back its own close callback; an unknown session changes nothing |
| `AuthSessions.ForwardAlways` | src/main/cpp/isched/backend/isched_SubscriptionBroker.cpp:355-391 | in every run, the socket of an authentication session maps back to it |
| `AuthSessions.RegisterKeepsInverseIff` | src/main/cpp/isched/backend/isched_SubscriptionBroker.cpp:359-366 | the maps stay inverse exactly when the authentication session is new or keeps its socket |
| `AuthSessions.InverseUnderOneSocketEach` | src/main/cpp/isched/backend/isched_SubscriptionBroker.cpp:355-391 | they are inverse in every run in which no authentication session is registered from a second socket |
| `AuthSessions.UnregisterTouchesOnlyItsSocketIff` | src/main/cpp/isched/backend/isched_SubscriptionBroker.cpp:371-377 | unregistering a socket spares the registrations of other sockets exactly when its entry is not stale |
| `AuthSessions.RevokesAllIffInverse` | src/main/cpp/isched/backend/isched_SubscriptionBroker.cpp:379-391 | revoking any authentication session whatever, known or not, would reach all sockets connected through it exactly when the maps are inverse |
| `AuthSessions.RevokesAllIffOneSocketEach` | src/main/cpp/isched/backend/isched_SubscriptionBroker.cpp:355-391 | after every part of a run that promise is kept exactly when no operation of the run registers an authentication session from a second socket while it has a first |
| `AuthSessions.RevokeMissesSocketExample` | src/main/cpp/isched/backend/isched_SubscriptionBroker.cpp:365-391 | two sockets of one session, of which the first closes: revoking then does nothing and the second stays connected |
| `AuthSessions.StaleEntryExample` | src/main/cpp/isched/backend/isched_SubscriptionBroker.cpp:365-375 | one session registered from two sockets: closing the first forgets the second |
| `AuthSessions.OwnEntries` | src/main/cpp/isched/backend/isched_SubscriptionBroker.cpp:355-391 | registering leads both ways and keeps the entries of other sockets; what was unregistered or revoked is gone |
| `ResolverRegistry.AfterAssign` | src/main/cpp/isched/backend/isched_multi_dim_map.hpp:131-153 | assigning at a path creates the path's prefixes, sets that one value and leaves every other node and value alone |
| `ResolverRegistry.AtThen` | src/main/cpp/isched/backend/isched_GqlExecutor.hpp:144-155 | looking a name up below a path is following the path extended by the name |
| `ResolverRegistry.Registry.RegisterResolver` | src/main/cpp/isched/backend/isched_GqlExecutor.hpp:107-109 | the trie refines the flat map with one entry overridden; children of the path stay |
| `ResolverRegistry.Registry.RegisterNewResolver` | src/main/cpp/isched/backend/isched_GqlExecutor.hpp:278-284 | a registered pair is refused, a new one added |
| `ResolverRegistry.Registry.Descend` | src/main/cpp/isched/backend/isched_GqlExecutor.hpp:144-152 | the cursor loop reaches the node at the path or finds that there is none |
| `ResolverRegistry.Registry.HasResolver` | src/main/cpp/isched/backend/isched_GqlExecutor.hpp:144-155 | true exactly for registered pairs; intermediate nodes are not mistaken for resolvers |
| `ResolverRegistry.Registry.GetResolver` | src/main/cpp/isched/backend/isched_GqlExecutor.hpp:157-171 | a registered pair yields its own resolver; otherwise an empty function exactly at a proper prefix of a registered path, and not-found elsewhere |
| `Ast.CollectIsInlineIff` | src/main/cpp/isched/backend/isched_GqlExecutor_field_nodes.cpp:18-53 | collecting a selection set's fields finds the fields an in-line traversal meets, in order, exactly when no child nests fields the collection skips |
| `Ast.CollectAgainstInline` | src/main/cpp/isched/backend/isched_GqlExecutor.cpp:3071-3110 | collecting never finds more than the in-line traversal, and strictly fewer on other shapes |
| `Ast.CollectConcat` | src/main/cpp/isched/backend/isched_GqlExecutor_field_nodes.cpp:18-53 | the collected fields of two lists of children in turn are those of both |
| `Ast.InlineConcat` | src/main/cpp/isched/backend/isched_GqlExecutor.cpp:3071-3110 | so are those met in line |
| `Ast.CollectedFromOne` | src/main/cpp/isched/backend/isched_GqlExecutor_field_nodes.cpp:18-53 | a field is taken, a wrapper gives its leading field, anything else nothing |
| `Ast.InlinedFromOne` | src/main/cpp/isched/backend/isched_GqlExecutor.cpp:3071-3095 | in line a field is taken, a set collected, a wrapper entered, anything else skipped |
| `Ast.EveryFieldIsTaken` | src/main/cpp/isched/backend/isched_GqlExecutor_field_nodes.cpp:18-53 | from nothing but fields both take all, in order |
| `QueryAnalysis.Walker.Walk` | src/main/cpp/isched/backend/isched_GqlExecutor.cpp:495-510 | the accumulating walk adds the recursive field count and raises the depth to the recursive nesting depth |
| `QueryAnalysis.AnalyseQueryComplexity` | src/main/cpp/isched/backend/isched_GqlExecutor.cpp:490-513 | reports the number of field nodes and the deepest nesting of selection sets |
| `QueryAnalysis.CountIsAllFields` | src/main/cpp/isched/backend/isched_GqlExecutor.cpp:495-510 | the reported count is the number of field nodes anywhere in the tree |
| `QueryAnalysis.DepthIsLongestNesting` | src/main/cpp/isched/backend/isched_GqlExecutor.cpp:495-510 | the reported depth is the largest number of selection sets on a way down from the root |
| `QueryAnalysis.CollectCounts` | src/main/cpp/isched/backend/isched_GqlExecutor_field_nodes.cpp:18-53 | collected fields weigh no more than the selection set they come from, in count and depth |
| `QueryAnalysis.InlineCounts` | src/main/cpp/isched/backend/isched_GqlExecutor.cpp:3071-3110 | so do the fields of the in-line traversal |
| `ExecutionProperties.ProcessFieldsGrows` | src/main/cpp/isched/backend/isched_GqlExecutor.cpp:3112-3335 | execution only appends errors and never drops a key of the result |
| `ExecutionProperties.EveryFieldIsAnswered` | src/main/cpp/isched/backend/isched_GqlExecutor.cpp:3112-3335 | every non-empty field ends with its key in the result or its missing-resolver error at its path |
| `ExecutionProperties.OtherKeysUntouched` | src/main/cpp/isched/backend/isched_GqlExecutor.cpp:3112-3335 | keys that no field names keep their value or absence |
| `ExecutionProperties.LastFieldWins` | src/main/cpp/isched/backend/isched_GqlExecutor.cpp:3112-3335 | a repeated key holds what its last field wrote, as if the earlier ones had not been there |
| `ExecutionProperties.UnanswerableStays` | src/main/cpp/isched/backend/isched_GqlExecutor.cpp:3145-3160 | a key with neither resolver nor parent value is never written |
| `ExecutionProperties.FieldWritesAnew` | src/main/cpp/isched/backend/isched_GqlExecutor.cpp:3112-3335 | a field writes its key unless nothing answers to it, and what it writes does not depend on the result so far |
| `ExecutionProperties.UnresolvedFieldsAreAlike` | src/main/cpp/isched/backend/isched_GqlExecutor.cpp:3145-3160 | without a resolver, fields of one name behave alike whatever their arguments and sub-selections |
| `ExecutionProperties.UnresolvedFieldIsCopied` | src/main/cpp/isched/backend/isched_GqlExecutor.cpp:3145-3148 | without a resolver the parent's value is copied whole, whatever the sub-selection, without an error |
| `ExecutionProperties.ListsKeepTheirShape` | src/main/cpp/isched/backend/isched_GqlExecutor.cpp:3301-3313 | a list result keeps its length, its nulls stay where they were and every other element becomes an object |
| `ExecutionProperties.ProcessFieldsConcat` | src/main/cpp/isched/backend/isched_GqlExecutor_field_nodes.cpp:61-67 | processing one list of fields and then another is processing both |
| `ExecutionProperties.ProcessFieldsBound` | src/main/cpp/isched/backend/isched_GqlExecutor.cpp:3288-3330 | fields of count C and depth d dispatch at most C * L^d fields when no resolver returns more than L elements |
| `ExecutionProperties.ProcessFieldsPaths` | src/main/cpp/isched/backend/isched_GqlExecutor.cpp:3112-3335 | no new error path is longer than the path so far, one name and the nesting of the fields |
| `ExecutionProperties.ProcessFieldsGated` | src/main/cpp/isched/backend/isched_GqlExecutor.cpp:3165-3200 | result, errors and effects do not depend on resolvers the caller is shut out from, which is said of the gates and roles themselves |
| `ExecutionLaws.GateRefuses` | src/main/cpp/isched/backend/isched_GqlExecutor.cpp:3165-3200 | a gated top-level field of which the caller holds no role becomes null with FORBIDDEN at its name, and the world is untouched |
| `ExecutionLaws.OrganizationRefuses` | src/main/cpp/isched/backend/isched_GqlExecutor.cpp:3202-3236 | past the gate, a guarded mutation with the id of another organization, by a caller who is no platform administrator, becomes null with CONTEXT_MISMATCH, and the world is untouched |
| `ExecutionLaws.MayCallIsLetThrough` | src/main/cpp/isched/backend/isched_GqlExecutor.cpp:3165-3236 | below the top level, and for a caller who holds some role and stays within the organization, neither guard fires |
| `ExecutionLaws.ValueIsKept` | src/main/cpp/isched/backend/isched_GqlExecutor.cpp:3239-3332 | without a sub-selection the resolver's value is the value under the key, with the world the resolver leaves |
| `ExecutionLaws.ValueIsNarrowed` | src/main/cpp/isched/backend/isched_GqlExecutor.cpp:3280-3332 | with a sub-selection null stays null, an object is replaced by its selected fields, a list element by element, and a scalar by null and SelectionOnScalar |
| `ExecutionLaws.ThrowIsReported` | src/main/cpp/isched/backend/isched_GqlExecutor.cpp:3241-3277 | a throw gives null and one error at the field, with the thrower's code, RATE_LIMITED for a text that starts with it, or an unknown error |
| `ExecutionLaws.MissingField` | src/main/cpp/isched/backend/isched_GqlExecutor.cpp:3149-3160 | with neither resolver nor parent value nothing is written and the field is reported |
| `ExecutionLaws.CopiedField` | src/main/cpp/isched/backend/isched_GqlExecutor.cpp:3145-3148 | without a resolver the parent's value is written and nothing reported |
| `ExecutionLaws.TypenameField` | src/main/cpp/isched/backend/isched_GqlExecutor.cpp:3124-3143 | `__typename` is the declared type, else what the parent says of itself, else null |
| `ExecutionLaws.EmptyFieldIsReported` | src/main/cpp/isched/backend/isched_GqlExecutor.cpp:3113-3117 | a field without a name writes nothing and is reported |
| `ExecutionLaws.OneField` | src/main/cpp/isched/backend/isched_GqlExecutor_field_nodes.cpp:61-67 | a list of one field resolves that field |
| `ExecutionLaws.NoFields` | src/main/cpp/isched/backend/isched_GqlExecutor_field_nodes.cpp:61-67 | no field changes nothing |
| `ExecutionLaws.OneElement` | src/main/cpp/isched/backend/isched_GqlExecutor.cpp:3301-3313 | a null element stays null; any other becomes its selected fields, with itself as parent |
| `ExecutionLaws.ElementsConcat` | src/main/cpp/isched/backend/isched_GqlExecutor.cpp:3301-3313 | the elements of a list are processed in order, the work of one after that of another |
| `ExecutionLaws.SelectedObject` | src/main/cpp/isched/backend/isched_GqlExecutor.cpp:3097-3110 | a selected object holds names of the sub-selection only, each field answered |
| `Documents.LimitsBoundTheWork` | src/main/cpp/isched/backend/isched_GqlExecutor.cpp:3608-3641 | for every document: with limits D and C on, at most C * L^(D-1) dispatches and no new error path longer than D |
| `Documents.DefinitionsWithin` | src/main/cpp/isched/backend/isched_GqlExecutor.cpp:3631-3642 | the same bound for a list of definitions by its own field count and depth |
| `Documents.GatedResolversAreUnobservable` | src/main/cpp/isched/backend/isched_GqlExecutor.cpp:3112-3200 | registries that differ only in gated top-level fields closed to the caller, and below them, give the same data, errors and effects for every document |
| `DocumentLaws.EveryOperationIsExecuted` | src/main/cpp/isched/backend/isched_GqlExecutor.cpp:3439-3522 | within the limits the collected fields of every selection set of every query, mutation, subscription and anonymous operation are processed in document order into one result, each answered and dispatched, and what is malformed is reported |
| `DocumentLaws.WellFormedDocumentExactly` | src/main/cpp/isched/backend/isched_GqlExecutor.cpp:3631-3643 | a well-formed document within the limits gives exactly the data, errors and effects of its top-level fields |
| `DocumentLaws.OverLimitIsRefused` | src/main/cpp/isched/backend/isched_GqlExecutor.cpp:3608-3628 | over a limit that is on, the data is null, one ARGUMENT_ERROR says which, and the world is untouched |
| `DocumentLaws.NoDefinitionsAreRefused` | src/main/cpp/isched/backend/isched_GqlExecutor.cpp:3592-3607 | a tree without a document or definitions is refused with one error |
| `DocumentLaws.ProcessFieldsAnyErrors` | src/main/cpp/isched/backend/isched_GqlExecutor.cpp:3112-3335 | errors reported before influence neither result nor effects |
| `DocumentLaws.EachIsDispatched` | src/main/cpp/isched/backend/isched_GqlExecutor_field_nodes.cpp:55-68 | every field of a list is dispatched |
| `Executor.CollectFieldNodes` | src/main/cpp/isched/backend/isched_GqlExecutor_field_nodes.cpp:18-53 | the loop collects the fields of a selection set and nothing from any other node |
| `Executor.Run.ReportAt` | src/main/cpp/isched/backend/isched_GqlExecutor.cpp:3150-3159 | appends one error at the field's path and restores the path |
| `Executor.Run.ResolveFieldSelectionDetails` | src/main/cpp/isched/backend/isched_GqlExecutor.cpp:3112-3335 | restores the path; result, errors and world are those of the value-level field resolution |
| `Executor.Run.CallResolver` | src/main/cpp/isched/backend/isched_GqlExecutor.cpp:3239-3277 | a returned value is completed; a throw becomes null and one error at the field |
| `Executor.Run.CompleteValue` | src/main/cpp/isched/backend/isched_GqlExecutor.cpp:3280-3332 | restores the path; null, list, object and scalar results are treated as specified |
| `Executor.Run.ProcessListElements` | src/main/cpp/isched/backend/isched_GqlExecutor.cpp:3301-3313 | restores the path for every element and maps the list as specified |
| `Executor.Run.ProcessFieldSubSelections` | src/main/cpp/isched/backend/isched_GqlExecutor.cpp:3097-3110 | pushes and pops the name; processes the fields the in-line traversal meets |
| `Executor.Run.ProcessSubSelection` | src/main/cpp/isched/backend/isched_GqlExecutor.cpp:3071-3095 | the dispatch on the node type processes exactly the node's in-line fields |
| `Executor.Run.ProcessFieldNodes` | src/main/cpp/isched/backend/isched_GqlExecutor_field_nodes.cpp:55-68 | processes the collected fields in order |
| `Executor.Run.ProcessOperationDefinitions` | src/main/cpp/isched/backend/isched_GqlExecutor.cpp:3439-3522 | runs an operation starting and ending with an empty path |
| `Executor.Run.Execute` | src/main/cpp/isched/backend/isched_GqlExecutor.cpp:3592-3644 | document checks, limits and definitions give the data and errors of the value-level execution |
| `Metrics.StepInv` | src/main/cpp/isched/backend/isched_MetricsCollector.cpp:16-82 | every atomic step of every interleaving keeps the counting, average and reset invariants |
| `Metrics.CountersAreConsistent` | src/main/cpp/isched/backend/isched_MetricsCollector.cpp:66-72 | in every reachable state errors do not exceed requests in total and no interval counter exceeds its total |
| `Metrics.EachBoundaryResetOnce` | src/main/cpp/isched/backend/isched_MetricsCollector.cpp:24-30 | each interval start is replaced by one winner only, after at least a minute, and starts strictly increase |
| `Metrics.AverageIsTheFold` | src/main/cpp/isched/backend/isched_MetricsCollector.cpp:74-81 | the average is the sequential moving average over the samples in the order their exchanges succeeded, between 0 and the largest sample |
| `Metrics.AverageIsWeighted` | src/main/cpp/isched/backend/isched_MetricsCollector.cpp:74-81 | in closed form: the sample with n later ones counts 0.1 * 0.9^n |
| `Metrics.OneExchange` | src/main/cpp/isched/backend/isched_MetricsCollector.cpp:74-81 | each successful exchange gives 10 * new = 9 * old + duration; no other step changes the average |
| `Metrics.FoldIsWeighted` | src/main/cpp/isched/backend/isched_MetricsCollector.cpp:74-81 | the sequential fold equals the closed form for all samples |
| `Metrics.NothingIsLost` | src/main/cpp/isched/backend/isched_MetricsCollector.cpp:37-82 | when no call is in progress every call was counted and sampled exactly once |
| `Metrics.ErrorsStayWithinRequestsIff` | src/main/cpp/isched/backend/isched_MetricsCollector.cpp:16-72 | interval errors never exceed interval requests in all runs that take at most T exactly when T is shorter than the shortest interval allowed in them (60 minutes unless set otherwise) |
| `Metrics.RunWithoutReset` | src/main/cpp/isched/backend/isched_MetricsCollector.cpp:24-72 | until an interval has passed since the start, no reset begins and errors stay within requests, in every interleaving |
| `Metrics.OneAtATimeStaysWithin` | src/main/cpp/isched/backend/isched_MetricsCollector.cpp:16-72 | if no call begins while another runs, errors exceed requests only between the two stores of a reset, in runs of any length |
| `Metrics.ErrorsOvertakeRequestsExample` | src/main/cpp/isched/backend/isched_MetricsCollector.cpp:24-72 | a run as long as one interval after which one error and no request is counted |
| `Metrics.IntervalsAreClamped` | src/main/cpp/isched/backend/isched_MetricsCollector.cpp:153-180 | an interval below one minute is taken as one minute, and nothing else changes |
| `RateLimiter.TokenBucket.TryConsume` | src/main/cpp/isched/backend/isched_RateLimiter.hpp:41-56 | refill, cap and consumption give the specified bucket and answer |
| `RateLimiter.Limiter.AllowCall` | src/main/cpp/isched/backend/isched_RateLimiter.hpp:83-88 | the call affects the address's own bucket only, created full on first sight |
| `RateLimiter.OthersDoNotMatter` | src/main/cpp/isched/backend/isched_RateLimiter.hpp:83-88 | an address gets the answers it would get as the only client |
| `RateLimiter.TokensCoverTheAllowed` | src/main/cpp/isched/backend/isched_RateLimiter.hpp:49-55 | the calls let through are covered by the tokens there were and what flowed in |
| `RateLimiter.EveryWindowIsBounded` | src/main/cpp/isched/backend/isched_RateLimiter.hpp:41-56 | in any window of T seconds of any run at most limit + T * limit / 60 calls of an address are let through |
| `RateLimiter.PatientClientsGetThrough` | src/main/cpp/isched/backend/isched_RateLimiter.hpp:41-56 | a client that waits 60 / limit seconds between calls is never refused, whatever others do |
| `RateLimiter.DocumentedLimitHoldsIff` | src/main/cpp/isched/backend/isched_RateLimiter.hpp:80 | the documented maximum per window holds in every run exactly for windows shorter than 60 / limit seconds |
| `RateLimiter.LaterMaximaAreIgnored` | src/main/cpp/isched/backend/isched_RateLimiter.hpp:83-88 | runs that differ only in the maximum of calls whose address already has a bucket get the same answers and leave the same buckets |
| `RateLimiter.LaterMaximumRespectedIff` | src/main/cpp/isched/backend/isched_RateLimiter.hpp:83-88 | the bound a later maximum stands for holds in every run exactly when it is at least the first one of the address |
| `RateLimiter.SixtySecondsAreTooLong` | src/main/cpp/isched/backend/isched_RateLimiter.hpp:80 | so it does not hold for the 60 seconds the header names |
| `RateLimiter.RefusalLeavesNoTrace` | src/main/cpp/isched/backend/isched_RateLimiter.hpp:41-56 | a refused call changes no later answer nor the bucket left |
| `LoginLockout.Lockout.RecordFailedAttempt` | src/main/cpp/isched/backend/isched_AuthenticationMiddleware.cpp:414-434 | the pruning loop, the append and the lock give the specified window; other identities keep theirs |
| `LoginLockout.Lockout.IsRateLimited` | src/main/cpp/isched/backend/isched_AuthenticationMiddleware.cpp:399-412 | the answer and the clearing of an expired lock are as specified |
| `LoginLockout.Lockout.ResetFailedAttempts` | src/main/cpp/isched/backend/isched_AuthenticationMiddleware.cpp:436-439 | forgets this identity only |
| `LoginLockout.PrunedCounts` | src/main/cpp/isched/backend/isched_AuthenticationMiddleware.cpp:426-431 | in a queue in time order, pruning from the front keeps exactly the failures within the window |
| `LoginLockout.PrunedAgain` | src/main/cpp/isched/backend/isched_AuthenticationMiddleware.cpp:426-428 | pruning for one moment is forgotten by pruning for a later one |
| `LoginLockout.LockedAfterFailure` | src/main/cpp/isched/backend/isched_AuthenticationMiddleware.cpp:430-433 | a new failure locks until one window after it when enough fall in its window, and otherwise changes nothing |
| `LoginLockout.FailureRepresents` | src/main/cpp/isched/backend/isched_AuthenticationMiddleware.cpp:414-434 | recording keeps the stored window representing the whole list of failures |
| `LoginLockout.QueryRepresents` | src/main/cpp/isched/backend/isched_AuthenticationMiddleware.cpp:399-412 | a query is answered by the list of failures and clearing an expired lock keeps it represented |
| `LoginLockout.LockoutFollowsTheList` | src/main/cpp/isched/backend/isched_AuthenticationMiddleware.cpp:399-439 | in every run with a monotone clock each query is true exactly when some failure since the last reset had enough failures in its window and its lock runs past now |
| `LoginLockout.LockedInPlainNumbers` | src/main/cpp/isched/backend/isched_AuthenticationMiddleware.cpp:399-434 | after failures at given times an identity is refused exactly when some failure, with those within the window before it, makes up the maximum and is less than one window old |
| `LoginLockout.CountIsCardinality` | src/main/cpp/isched/backend/isched_AuthenticationMiddleware.cpp:426-430 | the count used is the number of failures within the interval |
| `LoginLockout.ClearingForgets` | src/main/cpp/isched/backend/isched_AuthenticationMiddleware.cpp:436-439 | after clearing, the answers are those of a new identity |
| `Numerals.ValueOfPrint` | src/main/cpp/isched/backend/isched_AuthenticationMiddleware.cpp:605-607 | reading a printed number gives the number, in base 10 and 16 |
| `Numerals.StoulOfPrint` | src/main/cpp/isched/backend/isched_AuthenticationMiddleware.cpp:631-633 | std::stoul undoes std::to_string below 2^64 |
| `Numerals.StoulOfDigits` | src/main/cpp/isched/backend/isched_AuthenticationMiddleware.cpp:548 | std::stoul reads a plain digit string as its value |
| `Numerals.StoulReads` | src/main/cpp/isched/backend/isched_AuthenticationMiddleware.cpp:631-633 | std::stoul skips white space, ignores what follows the digits, and throws from 2^64 on |
| `Numerals.StoulReadsSigned` | src/main/cpp/isched/backend/isched_AuthenticationMiddleware.cpp:631-633 | a sign is heeded, a negative number wraps around at 2^64 |
| `Numerals.ValueSnoc` | src/main/cpp/isched/backend/isched_AuthenticationMiddleware.cpp:631-633 | a further digit multiplies the value by the base and adds the digit |
| `Numerals.PrintInjective` | src/main/cpp/isched/backend/isched_SubscriptionBroker.cpp:28-32 | different numbers print differently |
| `PasswordHash.BytesToHex` | src/main/cpp/isched/backend/isched_AuthenticationMiddleware.cpp:530-538 | two padded digits per byte |
| `PasswordHash.HexToBytes` | src/main/cpp/isched/backend/isched_AuthenticationMiddleware.cpp:540-551 | the loop parses pairs of digits, failing on odd length or a bad pair |
| `PasswordHash.OddLengthIsRejected` | src/main/cpp/isched/backend/isched_AuthenticationMiddleware.cpp:542-544 | no odd-length text is accepted |
| `PasswordHash.UnhexOfHex` | src/main/cpp/isched/backend/isched_AuthenticationMiddleware.cpp:530-551 | hex parsing undoes hex printing for every byte string |
| `PasswordHash.SplitFields` | src/main/cpp/isched/backend/isched_AuthenticationMiddleware.cpp:616-623 | the getline loop computes the fields between colons |
| `PasswordHash.FieldsOfJoin` | src/main/cpp/isched/backend/isched_AuthenticationMiddleware.cpp:605-623 | splitting undoes joining when no part holds a colon and the last is not empty |
| `PasswordHash.SameBytes` | src/main/cpp/isched/backend/isched_AuthenticationMiddleware.cpp:650-655 | the accumulating comparison is true exactly for equal byte strings |
| `PasswordHash.OrXorIsZero` | src/main/cpp/isched/backend/isched_AuthenticationMiddleware.cpp:651-655 | an accumulated difference is zero exactly when it was and the bytes are equal |
| `PasswordHash.HashPassword` | src/main/cpp/isched/backend/isched_AuthenticationMiddleware.cpp:591-610 | empty passwords and derivation failures are errors; otherwise the text is `argon2id:t=3:m=65536:p=1:` and the salt and derived bytes in hex |
| `PasswordHash.VerifyPassword` | src/main/cpp/isched/backend/isched_AuthenticationMiddleware.cpp:612-659 | accepts exactly when the text parses and derivation with its parameters yields its bytes |
| `PasswordHash.ParseUndoesPrint` | src/main/cpp/isched/backend/isched_AuthenticationMiddleware.cpp:604-646 | the parser recovers parameters, salt and hash from the printed text |
| `PasswordHash.AcceptsWhatWasHashed` | src/main/cpp/isched/backend/isched_AuthenticationMiddleware.cpp:591-659 | a candidate is accepted against a stored password exactly when both derive the same bytes, so the password itself always is |
| `PasswordHash.StoredText` | src/main/cpp/isched/backend/isched_AuthenticationMiddleware.cpp:604-610 | the printed text, character by character |
| `PasswordHash.HexDigits` | src/main/cpp/isched/backend/isched_AuthenticationMiddleware.cpp:530-538 | each byte is its high and then its low digit, in lower case |
| `PasswordHash.OthersAreRefused` | src/main/cpp/isched/backend/isched_AuthenticationMiddleware.cpp:624-626 | a text without six fields, or naming another function, is accepted for no password |
| `PasswordHash.AcceptsSixFields` | src/main/cpp/isched/backend/isched_AuthenticationMiddleware.cpp:612-659 | any six fields: the derivation runs with the parameters written in the text, cut to 32 bits, whatever their two-character tags |
| `Snapshots.ActivateMakesUnique` | src/main/cpp/isched/backend/isched_DatabaseManager.cpp:877-920 | activation leaves the tenant with exactly that active snapshot, keeps at most one per tenant overall and changes no other tenant or field |
| `Snapshots.ActivateOverrides` | src/main/cpp/isched/backend/isched_DatabaseManager.cpp:882-920 | only the latest activation within a tenant counts |
| `Snapshots.SaveKeepsOneActiveIff` | src/main/cpp/isched/backend/isched_DatabaseManager.cpp:809-851 | saving keeps at most one active snapshot per tenant exactly when it does not bring a second one |
| `Snapshots.ListingUniqueIff` | src/main/cpp/isched/backend/isched_DatabaseManager.cpp:987-990 | newest-first order determines the listing exactly when no two snapshots of the tenant were created in the same second |
| `Snapshots.ListingAfterActivate` | src/main/cpp/isched/backend/isched_DatabaseManager.cpp:882-990 | activating does not change the order of the listing |
| `Snapshots.FindTarget` | src/main/cpp/isched/backend/isched_GqlExecutor.cpp:1242-1258 | the two loops find the rollback target of the listing |
| `Snapshots.TargetIsCyclicSuccessor` | src/main/cpp/isched/backend/isched_GqlExecutor.cpp:1242-1258 | with one active snapshot the target is its cyclic successor in newest-first order |
| `Snapshots.TargetWithoutActive` | src/main/cpp/isched/backend/isched_GqlExecutor.cpp:1250-1258 | with none it is the newest snapshot |
| `Snapshots.RollbackReturnsToPreviousIff` | src/main/cpp/isched/backend/isched_GqlExecutor.cpp:1207-1277 | after activating one snapshot and then another, a rollback returns to the first exactly when it is the next older one, or the newest after the oldest |
| `Snapshots.RollbackFrom` | src/main/cpp/isched/backend/isched_GqlExecutor.cpp:1229-1277 | with a snapshot active there is a rollback, to its cyclic successor |
| `Snapshots.RollbackNeedNotReturn` | src/main/cpp/isched/backend/isched_GqlExecutor.cpp:1207-1277 | three snapshots, the middle one activated after the newest: the rollback goes to the oldest |
| `Snapshots.FallbackIsNeverSecond` | src/main/cpp/isched/backend/isched_GqlExecutor.cpp:1250-1258 | the fallback, commented as taking the second snapshot, never takes it |
| `Snapshots.RollbacksCycle` | src/main/cpp/isched/backend/isched_GqlExecutor.cpp:1229-1277 | k rollbacks activate the k-th cyclic successor and change nothing else in the table |
| `Snapshots.RollbacksReturn` | src/main/cpp/isched/backend/isched_GqlExecutor.cpp:1229-1277 | as many rollbacks as the tenant has snapshots restore the whole table |
| `Snapshots.ConfigStore.Save` | src/main/cpp/isched/backend/isched_DatabaseManager.cpp:809-851 | a used id is refused without effect |
| `Snapshots.ConfigStore.Create` | src/main/cpp/isched/backend/isched_GqlExecutor.cpp:1067-1087 | creation saves an inactive snapshot, so at most one stays active per tenant |
| `Snapshots.ConfigStore.ActivateSnapshot` | src/main/cpp/isched/backend/isched_DatabaseManager.cpp:853-924 | fails without effect for an unknown id or an empty tenant; otherwise activates |
| `Snapshots.ConfigStore.List` | src/main/cpp/isched/backend/isched_DatabaseManager.cpp:978-1001 | lists each of the tenant's snapshots once, newest first, ties in either order |
| `Snapshots.ConfigStore.Rollback` | src/main/cpp/isched/backend/isched_GqlExecutor.cpp:1211-1282 | which of the outcomes occurs, what is activated and which schema is queued; failures change nothing |
| `ConnectionPool.ConnectionPool.Arrive` | src/main/cpp/isched/backend/isched_DatabaseManager.cpp:116 | every request is counted when it arrives |
| `ConnectionPool.ConnectionPool.Decide` | src/main/cpp/isched/backend/isched_DatabaseManager.cpp:118-151 | a client is refused exactly when all connections are held; the oldest idle connection is reused; nobody else holds what is granted; grants equal pool hits plus created; failures leave the pool as it was |
| `ConnectionPool.ConnectionPool.ReturnConnection` | src/main/cpp/isched/backend/isched_DatabaseManager.cpp:153-167 | the connection always rejoins the queue: the guard against underflow and the drop on a full pool are never taken |
| `WsSession.HandedThenQueue` | src/main/cpp/isched/backend/isched_Server.cpp:300-321 | messages handed to the socket followed by those still to be written are the messages enqueued, in order |
| `WsSession.PrefixKeepsOrder` | src/main/cpp/isched/backend/isched_Server.cpp:300-321 | the acknowledgement order carries over to any prefix, so to what the client sees |
| `WsSession.Appended` | src/main/cpp/isched/backend/isched_Server.cpp:300-303 | appending keeps every `next` behind an acknowledgement |
| `WsSession.WsSession.WhatTheClientSees` | src/main/cpp/isched/backend/isched_Server.cpp:192-321 | in every reachable state: conservation across write errors, at most one outstanding write, no `next` before the first acknowledgement, and nothing left unsent when idle without errors |
| `WsSession.WsSession.EnqueueRaw` | src/main/cpp/isched/backend/isched_Server.cpp:300-303 | the message joins the queue and a write is outstanding afterwards |
| `WsSession.WsSession.DoWriteNext` | src/main/cpp/isched/backend/isched_Server.cpp:305-312 | hands over the front of the queue, only when no write is outstanding |
| `WsSession.WsSession.OnWrite` | src/main/cpp/isched/backend/isched_Server.cpp:314-321 | the next message is handed over unless an error occurred or none is left |
| `WsSession.WsSession.HandleMessage` | src/main/cpp/isched/backend/isched_Server.cpp:192-237 | the replies to each message, the subscriptions it starts and ends, and when these stay reachable: exactly while no operation with a live one is subscribed again; one out of reach stays so |
| `WsSession.WsSession.HandleSubscribe` | src/main/cpp/isched/backend/isched_Server.cpp:239-275 | the initial response precedes the subscription; an empty query subscribes nothing |
| `WsSession.SubscribeTwice` | src/main/cpp/isched/backend/isched_Server.cpp:223-275 | subscribed twice and then completed: the first subscription is still live and no operation lists it |
| `WsSession.AfterSubscribe` | src/main/cpp/isched/backend/isched_Server.cpp:265-273 | listing the new subscription keeps every live one listed exactly when the operation had no live one, which otherwise goes out of reach |
| `WsSession.AfterComplete` | src/main/cpp/isched/backend/isched_Server.cpp:226-235 | ending an operation keeps the others listed, and those out of reach stay so |
| `WsSession.WsSession.BrokerDisconnects` | src/main/cpp/isched/backend/isched_Server.cpp:131-136 | the broker may drop the session's subscriptions at any time; listed operations without a live one are harmless |
| `WsSession.WsSession.SendNextThreadsafe` | src/main/cpp/isched/backend/isched_Server.cpp:285-290 | an event is only posted, and only for an operation subscribed before |
| `WsSession.WsSession.CloseTerminate` | src/main/cpp/isched/backend/isched_Server.cpp:326-336 | the terminate message is posted |
| `WsSession.WsSession.RunPosted` | src/main/cpp/isched/backend/isched_Server.cpp:287-303 | posted messages are enqueued in order |
| `QueryCache.CachedRunsAreUncached` | src/main/cpp/isched/backend/isched_GqlExecutor.cpp:3531-3592 | in every interleaving and for every eviction choice: at most 512 entries, each the parse of its own key, and every call ends as it would without the cache |
| `QueryCache.StepInv` | src/main/cpp/isched/backend/isched_GqlExecutor.cpp:3545-3590 | every lookup, parse and insertion keeps that |
| `QueryCache.InsertedSize` | src/main/cpp/isched/backend/isched_GqlExecutor.cpp:3582-3586 | inserting grows the cache by one only below the bound |
| `QueryCache.OnlyEvictionForgets` | src/main/cpp/isched/backend/isched_GqlExecutor.cpp:3582-3586 | an entry is lost only to an eviction from a full cache, which stays full |
| `QueryCache.CallsAreWaitFree` | src/main/cpp/isched/backend/isched_GqlExecutor.cpp:3545-3592 | every step of a call brings it nearer its end, whatever the others do |
| `SchemaMap.DefinitionStaysIff` | src/main/cpp/isched/backend/isched_GqlExecutor.cpp:2887-2912 | a definition stays in the map exactly when no later node of the schema defines its name, or the last that does has the same text |
| `SchemaMap.OwnNameStaysIff` | src/main/cpp/isched/backend/isched_GqlExecutor.cpp:2899-2911 | within a definition its name stays its own exactly when nothing inside it defines that name |
| `SchemaMap.LastDefinitionWins` | src/main/cpp/isched/backend/isched_GqlExecutor.cpp:2887-2912 | the map holds for each name its last definition in document order |
| `SchemaMap.ArgumentShadowsItsType` | src/main/cpp/isched/backend/isched_GqlExecutor.cpp:2900-2911 | in the tree of an object type with a field with an argument named like the type, the argument replaces the type in the map |
| `SchemaMap.MergeOverrides` | src/main/cpp/isched/backend/isched_gql_grammar.cpp:47-68 | the map of a merge is the first map overridden by the second |
| `SchemaMap.LoadAcceptsIff` | src/main/cpp/isched/backend/isched_GqlExecutor.cpp:3386-3410 | the checks pass exactly when every field of Query and Mutation with a name has a resolver and nothing is executable, said of the tree itself |
| `SchemaMap.SchemaLoader.UpdateTypeMapRecursive` | src/main/cpp/isched/backend/isched_GqlExecutor.cpp:2887-2912 | the walk overrides the maps with the definitions of the tree |
| `SchemaMap.SchemaLoader.UpdateTypeMap` | src/main/cpp/isched/backend/isched_GqlExecutor.cpp:2914-2920 | the maps become those of the current schema |
| `SchemaMap.SchemaLoader.ProcessFieldDefinition` | src/main/cpp/isched/backend/isched_GqlExecutor.cpp:2922-2953 | reports an incomplete field or a missing resolver |
| `SchemaMap.SchemaLoader.LoadSchema` | src/main/cpp/isched/backend/isched_GqlExecutor.cpp:3361-3424 | in every reachable state the maps are rebuilt from the current schema; success overrides them, failure changes neither; the errors reported |
| `SchemaMap.InterfacesMirrorPossibleTypes` | src/main/cpp/isched/backend/isched_GqlExecutor.cpp:387-438 | an object listed among an interface's possible types lists the interface; conversely exactly when the name does not stem only from the fallback for a node without content |
| `SchemaMap.WithContentsTheyMirror` | src/main/cpp/isched/backend/isched_GqlExecutor.cpp:387-438 | they mirror each other whenever every NamedType node has content |
| `SchemaMap.ShownButNotPossible` | src/main/cpp/isched/backend/isched_GqlExecutor.cpp:396-433 | a NamedType node without content (the parser leaves none) shows an interface that does not list the object |
| `SchemaMap.ListInterfaces` | src/main/cpp/isched/backend/isched_GqlExecutor.cpp:387-405 | lists the interface names of an object in order |
| `SchemaMap.ListPossibleTypes` | src/main/cpp/isched/backend/isched_GqlExecutor.cpp:425-438 | lists each implementing object once, in key order |
| `SchemaLaws.DefinesIff` | src/main/cpp/isched/backend/isched_GqlExecutor.cpp:61-79 | a node is entered under its first name exactly when it is of one of the sixteen kinds listed, or, among the directives, a directive |
| `SchemaLaws.MapsHoldIff` | src/main/cpp/isched/backend/isched_GqlExecutor.cpp:2887-2912 | a name is in the maps exactly when some node of the tree is a definition so named |
| `SchemaLaws.OneDefinition` | src/main/cpp/isched/backend/isched_GqlExecutor.cpp:3386-3410 | the members of Query and Mutation are checked in order, an executable definition is refused, others pass |
| `SchemaLaws.OneMember` | src/main/cpp/isched/backend/isched_GqlExecutor.cpp:2922-2953 | what is reported of a member of a root type: incomplete, without a resolver, or nothing |
| `SchemaLaws.ErrorsConcat` | src/main/cpp/isched/backend/isched_GqlExecutor.cpp:3386-3410 | the reports about definitions come in document order |
| `SchemaLaws.MissedIff` | src/main/cpp/isched/backend/isched_GqlExecutor.cpp:2922-2953 | a resolver is missed exactly for the name of a field of Query or Mutation that has none |
| `SchemaLaws.LoadedDefinitions` | src/main/cpp/isched/backend/isched_GqlExecutor.cpp:3381-3386 | the definitions checked are the document's, whether it is the root or the root's first child |
| `SchemaLaws.KindOfNode` | src/main/cpp/isched/backend/isched_GqlExecutor.cpp:113-134 | a specific node is of its own kind, a plain type definition of the kind of its first specific child, any other an object |
| `SchemaLaws.OneInterface` | src/main/cpp/isched/backend/isched_GqlExecutor.cpp:393-401 | a NamedType child shows its text or, without any, its first child's; other children show nothing |
| `SchemaLaws.InterfacesConcat` | src/main/cpp/isched/backend/isched_GqlExecutor.cpp:393-401 | in the order of the children |
| `SchemaLaws.PossibleTypesSnoc` | src/main/cpp/isched/backend/isched_GqlExecutor.cpp:425-437 | a further key is appended exactly when it is an object with a NamedType child of the name |

## Left out

- Lexicographic.SortUnique: sorts by insertion instead of std::sort and std::unique; the result is the same by StrictlySortedUnique.
- GlobSegment.MatchOne: gathers the branches of the matching loop for tokens other than `*`; characters are single bytes, compared as signed in ranges.
- GlobWalk.Collector.Collect: no symbolic links and no canonical form of paths; a finite tree of directories and files, the root being its own parent; no Windows roots.
- QueryAnalysis.AnalyseQueryComplexity: counters are unbounded where the program has 32 bits, so wrap-around above 2^32 is not modelled.
- Metrics.StepInv: sequentially consistent accesses, real-valued latencies, unbounded counters, a clock that does not go back; creating a tenant's record and reading the metrics are left out.
- RateLimiter.TokenBucket.TryConsume: real arithmetic instead of float; rounding is not modelled.
- LoginLockout.LockoutFollowsTheList: one window and one maximum per run, as its caller passes them; the system clock is taken to be monotone and not before its epoch, which the program does not ensure.
- PasswordHash.AcceptsWhatWasHashed: the key derivation is an arbitrary function of fixed output length; the random salt is a parameter.
- Snapshots.ConfigStore.List: SQLite is a map of rows, a transaction one step;  activation times, versions, display names, resolver bindings and database failures are left out.
- Snapshots.ConfigStore.Create: the generated id is a parameter; schema validation before saving is left out.
- ConnectionPool.ConnectionPool.Decide: time is left out, a wait ends when it is decided; move-assignment of a held connection and closing the pool are left out.
- WsSession.WsSession.HandleMessage: the JSON text of messages, the topic heuristics and the token check are abstracted into the incoming message; authentication sessions are in AuthSessions; the read loop and closing the socket are left out.
- SchemaMap.SchemaLoader.LoadSchema: parsing yields a tree, none or a throw; a type definition without children, which the grammar cannot produce, is taken as no operation type where the program would read out of bounds; the map holds nodes where the program holds pointers into the current tree.
- SchemaMap.ListPossibleTypes: interfaces only; members of unions and the rest of the introspection output are left out, the key order of the map is a parameter.
- QueryCache.CachedRunsAreUncached: parsing is a function of the text; memory exhaustion is left out.
- Executor.Run.ResolveFieldSelectionDetails: resolvers are functions on an unknown world; argument extraction and the declared type behind `__typename` are parameters; a `__typename` of the parent that is no string (a throw in the program) counts as absent; error messages are templates with their arguments; null tree nodes are left out.
- WsSession.WsSession.CloseTerminate: closing the socket after the message is left out.
- SubscriptionBroker.SubscriptionBroker.Publish: handlers are returned in call order instead of being called; their exceptions are caught by the program and have no effect here. The count callback is the returned count.
- Built-in resolvers, JWT, SQLite, HTTP, asset serving, sockets, encryption, migrations and the web UI.
- The PEGTL grammar: trees are given.
