# swarmstate, modelled and proved in Dafny

swarmstate is a checkpointing backend: a Rust core (a sharded in-memory store, a msgpack
codec, a handoff graph with its condition language) and Python layers over it (a LangGraph
checkpoint saver, dump files, SQL backends). This project models the parts of it that carry
its promises and proves those promises for all inputs, all runs and all schedules.

`dafny verify dfyconfig.toml` checks the whole project (Dafny 4.11).

| files | what they model |
|---|---|
| `CheckpointRows`, `Ids`, `WriteKeys`, `StoredNames` | the rows the saver keeps for a thread, and every operation as a function on them |
| `RowLaws` | what those operations do, said row by row and of what is read afterwards, without the functions |
| `Saver`, `SaverSteps`, `PendingWrites` | the saver class, its methods proved to compute those functions and to be steps of the world below |
| `Retention`, `Incremental`, `LatestPointer` | what holds over whole runs: retention, incremental storage, the latest pointer |
| `Condition`, `ConditionGrammar`, `ConditionParser`, `ConditionLexer`, `ConditionMeaning`, `PartialState` | the condition language: evaluation, grammar, recursive descent, lexing, when a condition holds, the partial state |
| `Reachability`, `Kahn`, `HandoffGraph` | the handoff graph: cycle prevention, routing, `is_dag` |
| `FlatMaps`, `ShardedStore`, `SnapshotDiff` | the sharded store as a refinement of one flat map, snapshots and their diff |
| `LockProtocol`, `LockRuns`, `LockBatches`, `LateCounters` | threads working on the store at the same time, lock by lock |
| `ByteStrings`, `Utf8`, `PyValues`, `Codec`, `CodecRoundTrip`, `CodecForms`, `CodecShortest`, `CodecAccepts`, `CodecBuffers` | the msgpack codec, as functions and as writers and a reader with a position |
| `PrefixRange`, `DumpFormat`, `Portability` | prefix ranges, the dump file, copying, dumping and loading stores |
| `Text`, `Wrappers` | string order; `Option`, `Result`, `Max` |

Code that works in place is modelled in place (classes with `modifies` clauses, loops with
invariants) and proved against functions; the promises are lemmas about those functions, and
what the functions themselves compute is pinned by laws that do not name them.

Conventions of the model:

- A checkpoint id is its position in the order of ids: the saver only compares them.
- The serializer is outside the repository and taken to round-trip, so rows hold decoded
  values. `WRITES_IDX_MAP` is any injective map to negative indices.
- A thread's rows are grouped by `(thread, namespace)`. `StoredNames` proves that the printed
  names keep rows of different threads, namespaces, checkpoints and kinds apart, and exactly
  for which thread ids the saver also picks a thread's rows by them; the operations on whole
  threads are modelled for those.
- A parent is older than its child; without that, the walks up the parent chain need not end.
- A Dafny `char` is a Unicode scalar value, so a `string` is a surrogate-free Python string.
- `shard_index` is any function into 0..16; pointer equality is any test that is true only of
  equal contents; how floats compare in conditions, the classes of characters and the reading of a
  float's text are parameters.

## Findings

Properties that fail of the code as it is, each with a witness and the exact condition under
which the property holds.

- A saver that has no hint for a thread publishes whatever it puts. If that is an older id, the
  latest pointer moves back: `LatestPointer.ColdSaverMovesPointerBack`. Exactly when a put keeps
  the pointer right: `LatestPointer.AnyPutKeepsLatestIff`
  (`python/swarmstate/integrations/langgraph.py:381-394`).
- A dict with a tuple for a key is written and cannot be read: `CodecRoundTrip.TupleKeyIsNotRead`.
  A written value is read back if and only if no dict in it has such a key:
  `CodecRoundTrip.ReadingUndoesWriting` (`rust/src/codec.rs:437-450`).
- A value 128 levels deep can be stored and not dumped: `DumpFormat.DeepestValueIsNotDumped`.
  Exactly what can be dumped: `Portability.DumpedIff` (`python/swarmstate/portability.py:119`).
- `delete_namespace` and `clear` move the byte counter after they release the lock. A snapshot in
  between carries a size that is too large, and brings it back for good when it is restored later:
  `LateCounters.InexactSnapshotComesBack`. A restore in between leaves the counter short for good,
  `LateCounters.RestoreBetweenLosesBytes`, which in a machine word is a huge size:
  `LateCounters.LostBytesWrapAround`; a write between the halves of a `clear` is not counted:
  `LateCounters.WriteBetweenIsNotCounted`. Exactly when a counter is right, for every run of writes,
  deletions, clears, snapshots and restores: when the last restore put back a snapshot that carried
  too much by just what was still to be counted off, or the last zeroing met an empty shard with
  nothing to be counted off (`LateCounters.CounterIsExactIff`, `LateCounters.CounterIsRightIff`).
  That a restore falls between a deletion and its counting off does not decide:
  `LateCounters.OverlapCanBeHarmless`. Without restores and clears: `LateCounters.DeletionsOnlyLag`
  (`rust/src/store.rs:471-481`, `rust/src/store.rs:556-563`, `rust/src/store.rs:634-641`).
- A file cut off right behind the magic fails with an index error instead of being refused, and it is
  the only one: `DumpFormat.NoVersionIff`. Nor is every other broken file refused with a value error:
  a frame that holds a map with an unhashable key raises a type error
  (`DumpFormat.UnhashableFrameRaisesTypeError`), and so do names that are no strings. Which file
  raises which of the three, for every file and batch size: `DumpFormat.LoadRaisesIff`
  (`python/swarmstate/portability.py:144-168`).
- Two blobs of a thread can share a key: `StoredNames.SeparatorInVersion`. Exactly if one version ends
  with the separator and the other version: `StoredNames.KeysCollideIff`. Versions as LangGraph counts
  them never hold the separator (`python/swarmstate/integrations/langgraph.py:354-366`).
- Nothing keeps the separator out of a thread id. `delete_thread` and `copy_thread` of a thread `a`
  also take the rows of a thread whose id is `a`, the separator and more
  (`StoredNames.OtherThreadIsPicked`), and of a thread with the separator in its id they find no rows
  and say nothing (`StoredNames.NothingIsPicked`). Exactly which names are picked:
  `StoredNames.PickedIff`, and exactly when that is right: `StoredNames.PickedIsOfTheThreadIff`; for
  pointers, which are picked by the prefix alone: `StoredNames.PickedPointersIff`
  (`python/swarmstate/integrations/langgraph.py:582-594`,
  `python/swarmstate/integrations/langgraph.py:1215-1221`).
- `copy_thread` into a thread that has rows lays the source over them, and what is left of the target
  shows through: `LatestPointer.TargetShowsThrough`. Exactly when a copied checkpoint loads as it did in the source:
  `LatestPointer.CopiedTupleIff` (`python/swarmstate/integrations/langgraph.py:598-622`).

## Model

| member | source | states |
|---|---|---|
| Retention.RetentionLosesNothing | python/swarmstate/integrations/langgraph.py:906-1032 | after any run of puts and writes, trimmed at any moments, each of the newest n checkpoints loads the same tuple with and without the limit, and every delta channel it names and does not hold replays the same history; forks inside the window are allowed |
| Retention.OrdinaryRunLosesNothing | python/swarmstate/integrations/langgraph.py:313-336 | the same for LangGraph's ordinary run: every put on top of the newest checkpoint, one set of delta channels, full or incremental storage |
| Retention.WindowReadsTheSame | python/swarmstate/integrations/langgraph.py:681-723 | a trimmed thread that retains the window gives the same tuples and walks as the full one |
| Retention.TrimKeepsTheWindow | python/swarmstate/integrations/langgraph.py:923-975 | trimming an already trimmed thread keeps the newest n checkpoints and every ancestor their delta channels are replayed from |
| Incremental.IncrementalIsTransparent | python/swarmstate/integrations/langgraph.py:354-366 | after every step of every run of puts, writes, trims and run deletions, `get_tuple` from split blobs equals `get_tuple` from inline values, for every id |
| Incremental.DropIsTransparent | python/swarmstate/integrations/langgraph.py:977-1032 | dropping checkpoints and the blobs only they reference keeps the two storages in step |
| LatestPointer.LatestIsGreatest | python/swarmstate/integrations/langgraph.py:487-514 | in every state of every run of puts by several savers, prunes, deletions, copies, snapshots and restores, resolving without an id gives the greatest stored id, none exactly when nothing is stored, as an index on the ids would |
| LatestPointer.StepKeepsWorldOk | python/swarmstate/integrations/langgraph.py:381-394 | each such step keeps: a pointer to a stored checkpoint points to the newest, and no hint reaches the next new id |
| LatestPointer.AnyPutKeepsLatestIff | python/swarmstate/integrations/langgraph.py:388-393 | for a put of any id at all, the exact condition under which the pointer still answers the greatest id |
| LatestPointer.ColdSaverMovesPointerBack | python/swarmstate/integrations/langgraph.py:388-393 | a saver without a hint that puts an old id makes the pointer answer that id |
| LatestPointer.CopiedTupleIff | python/swarmstate/integrations/langgraph.py:598-622 | copied into any thread, a checkpoint loads as in the source, but for the thread its metadata names, iff the target holds no write of its own for it and, where its values are stored apart, no value of its own for one of its versions |
| LatestPointer.CopyIsFaithful | python/swarmstate/integrations/langgraph.py:598-622 | into a target that shows nothing of its own through the copy, an empty one in particular, every checkpoint is copied so, and every delta channel replays the same |
| Saver.SwarmStateSaver.FindDeltaAncestors | python/swarmstate/integrations/langgraph.py:938-975 | the walk over survivors and their parents collects exactly the ancestors each survivor needs |
| Saver.SwarmStateSaver.FindReferencedBlobs | python/swarmstate/integrations/langgraph.py:1011-1032 | exactly the blobs that kept checkpoints name by channel and version |
| Saver.SwarmStateSaver.DropCheckpoints | python/swarmstate/integrations/langgraph.py:977-1009 | row by row: the dropped checkpoints and their writes are gone and every other record and write stays; a blob stays iff it was stored and, in incremental storage, a kept stored checkpoint names its channel and version; a pointer to a dropped checkpoint moves to the newest kept one, or goes |
| RowLaws.DropIsDropped | python/swarmstate/integrations/langgraph.py:977-1009 | the same of the function behind it |
| RowLaws.DroppedPointer | python/swarmstate/integrations/langgraph.py:1001-1009 | without an index the pointer then names no dropped checkpoint |
| Saver.SwarmStateSaver.TrimThread | python/swarmstate/integrations/langgraph.py:923-936 | row by row, drops exactly the checkpoints that do not survive, with their writes and the blobs only they needed, and returns how many survived |
| RowLaws.TrimKeepsIff | python/swarmstate/integrations/langgraph.py:938-975 | a checkpoint survives iff fewer than `keep` stored ones are newer, or one of those names a delta channel, holds no value for it, and reaches the checkpoint up its stored parents without passing one that does |
| Saver.SwarmStateSaver.PruneThread | python/swarmstate/integrations/langgraph.py:906-921 | trims exactly when the thread holds more than eight and more than a quarter above the limit, and above what its last trim kept; remembers what was kept, touches no other thread |
| Saver.SwarmStateSaver.PrunedIsSmall | python/swarmstate/integrations/langgraph.py:906-921 | what a prune leaves is within the threshold, or is what has to be kept; without delta channels a trim leaves at most the limit n, and a first prune at most n + max(8, n / 4) |
| Saver.SwarmStateSaver.PutCheckpoint | python/swarmstate/integrations/langgraph.py:313-394 | the put checkpoint is read back with its metadata, parent and the writes that were there, and as it was put, in incremental storage iff its versions mean its values; every other checkpoint is there iff it was and reads as before iff the put brings no value under a version it names and had no blob for; delta channels replay from the parent; then the thread is trimmed iff it has grown too far; other threads stay |
| RowLaws.PutIsDone | python/swarmstate/integrations/langgraph.py:313-380 | the same of the function behind it |
| RowLaws.WalkFromPut | python/swarmstate/integrations/langgraph.py:369-378 | what a delta channel of the put checkpoint is replayed from is what lies above the parent it was put with |
| Saver.SwarmStateSaver.PutPendingWrites | python/swarmstate/integrations/langgraph.py:412-436 | the loop with its skip of stored positional writes computes the batch and stores it; no other row changes |
| Saver.SwarmStateSaver.PutPendingWritesAsync | python/swarmstate/integrations/langgraph.py:787-800 | the async path leaves the same store as the sync one |
| Saver.SwarmStateSaver.Resolve | python/swarmstate/integrations/langgraph.py:479-514 | the named checkpoint if stored; else the pointer if live, else the greatest id, which is published again; what it finds is stored, and nothing but the pointer changes |
| Saver.SwarmStateSaver.DeltaChannelHistory | python/swarmstate/integrations/langgraph.py:693-723 | one fused walk gives each channel what a walk of its own gives |
| RowLaws.WalkReplays | python/swarmstate/integrations/langgraph.py:693-723 | and that is: up the stored parents to the nearest that holds a value for the channel, its value as the seed, and the writes on the way, oldest first |
| RowLaws.ToChannelsPicks | python/swarmstate/integrations/langgraph.py:693-723 | of the writes exactly those to the channel, in their order |
| Saver.SwarmStateSaver.PruneToLatest | python/swarmstate/integrations/langgraph.py:664-679 | every namespace of the listed threads is trimmed to its newest checkpoint, the others stay |
| Saver.SwarmStateSaver.DeleteThread | python/swarmstate/integrations/langgraph.py:582-594 | kind by kind, all rows of the thread and its pointers go, both kinds of hints forget it, and every other thread keeps its rows and hints |
| Saver.SwarmStateSaver.DeleteForRuns | python/swarmstate/integrations/langgraph.py:639-662 | in every thread a checkpoint is there afterwards iff it was and its metadata names no run or none of the listed ones; it and its writes are then as they were, and what goes takes its writes and unshared blobs along |
| Saver.SwarmStateSaver.CopyRows | python/swarmstate/integrations/langgraph.py:608-622 | checkpoints, writes and blobs, copied row by row over the target's, make the source laid over the target |
| Saver.SwarmStateSaver.CopyThread | python/swarmstate/integrations/langgraph.py:598-637 | row by row, every namespace of the source is laid over the target's, a record's thread id becoming the target's iff it was the source's and the rest of its metadata staying; no other thread changes, and a hint gained names the newest checkpoint of the target |
| SaverSteps.Put | python/swarmstate/integrations/langgraph.py:313-394 | `put` on a shared store is a step of the world of savers and keeps its invariant |
| SaverSteps.Prune | python/swarmstate/integrations/langgraph.py:923-936 | so is a trim |
| SaverSteps.DeleteRunsStep | python/swarmstate/integrations/langgraph.py:639-662 | so is deleting runs, in one thread |
| SaverSteps.Delete | python/swarmstate/integrations/langgraph.py:582-594 | so is deleting a thread |
| SaverSteps.CopyStep | python/swarmstate/integrations/langgraph.py:598-629 | so is copying a namespace |
| SaverSteps.Latest | python/swarmstate/integrations/langgraph.py:487-514 | whatever steps came before, by whichever savers, `_resolve` without an id returns the greatest stored id |
| PendingWrites.WritesAfterIs | python/swarmstate/integrations/langgraph.py:426-436 | what each slot holds after a call: a stored positional write stays, a free one gets the write at its index, a special one the last write to its channel |
| PendingWrites.ReplayChangesNothing | python/swarmstate/integrations/langgraph.py:430-433 | making the same call again changes nothing |
| PendingWrites.PositionalWritesAreWriteOnce | python/swarmstate/integrations/langgraph.py:430-433 | a retry with other values cannot change a stored positional write |
| PendingWrites.AsyncWritesTheSame | python/swarmstate/integrations/langgraph.py:438-460 | rows filtered by one prefix listing are the rows filtered by one lookup each |
| PendingWrites.WritesReadBack | python/swarmstate/integrations/langgraph.py:1060-1069 | after a call on a checkpoint with any writes, its pending writes are those of all its slots by task and numeric index, each as the call left it, special channels and other tasks included |
| PendingWrites.WritesReadBackInOrder | python/swarmstate/integrations/langgraph.py:1060-1069 | so two writes of a call that found their slots free read back in the order they were made, however many there are and whatever else is stored |
| WriteKeys.ParseUndoesPrint | python/swarmstate/integrations/langgraph.py:117-125 | splitting a write key at its last separator and reading the number gives back task id and index, whatever the id contains |
| WriteKeys.KeysAreInjective | python/swarmstate/integrations/langgraph.py:429 | two writes share a key only if they share task id and index |
| WriteKeys.SortingIsCanonical | python/swarmstate/integrations/langgraph.py:1060-1063 | sorting by task and numeric index has one result for a set of slots |
| StoredNames.NamesAreInjective | python/swarmstate/integrations/langgraph.py:101-110 | no two namespaces print alike unless kind, thread, namespace and checkpoint are the same, whatever the thread ids; namespaces and checkpoint ids come from LangGraph and are free of the separator |
| StoredNames.PickedIff | python/swarmstate/integrations/langgraph.py:1215-1221 | the prefix and the second part of the name pick, for a thread id without the separator, the namespaces of its kind whose thread is that one or begins with it and the separator; else none |
| StoredNames.PickedIsOfTheThreadIff | python/swarmstate/integrations/langgraph.py:1215-1221 | so exactly when a namespace is picked iff it is the thread's |
| StoredNames.PickedPointersIff | python/swarmstate/integrations/langgraph.py:588-591 | the pointers picked by the prefix alone: the thread's, and those of the same longer ids |
| StoredNames.OtherThreadIsPicked | python/swarmstate/integrations/langgraph.py:582-587 | a thread id that begins with another and the separator is picked with it |
| StoredNames.NothingIsPicked | python/swarmstate/integrations/langgraph.py:582-587 | nothing is picked for a thread id with the separator in it |
| StoredNames.KeysCollideIff | python/swarmstate/integrations/langgraph.py:354-366 | two versions let two different blobs share a key iff one of them ends with the separator and the other |
| StoredNames.TwoPartKeysAreInjective | python/swarmstate/integrations/langgraph.py:354-366 | no two blobs of a thread share a key while versions are free of the separator |
| StoredNames.SeparatorInVersion | python/swarmstate/integrations/langgraph.py:1031 | and two can if they are not |
| Condition.EvalReadsOnlyItsPaths | rust/src/condition.rs:511-539 | two states that agree on the paths of a condition give it the same value |
| Condition.CollectPaths | rust/src/condition.rs:473-492 | lists every path a condition reads, no other, and none twice |
| Condition.LookupLoop | rust/src/condition.rs:494-509 | the loop over the segments finds what the recursive lookup defines |
| Condition.TermsMean | rust/src/condition.rs:511-539 | `and` holds iff all its terms do, `or` iff one does, whatever is skipped |
| ConditionMeaning.ConnectivesMean | rust/src/condition.rs:520-523 | `not` holds iff its operand does not, `and` iff all do, `or` iff one does |
| ConditionMeaning.ComparisonsMean | rust/src/condition.rs:524-539 | the eight operators: numbers compare as floats and equal nothing else, strings by code points, other values order in no way; `in` finds an equal item or key or a substring; `!=` and `not in` are the opposites of `==` and `in` |
| ConditionMeaning.OppositesMean | rust/src/condition.rs:526-533 | `!=` holds exactly where `==` does not, `not in` exactly where `in` does not |
| ConditionMeaning.NotInANonContainer | rust/src/condition.rs:530-533 | in what is missing or no container there is nothing, so `not in` holds |
| ConditionMeaning.ReferenceMeans | rust/src/condition.rs:519 | a reference is the value its path leads to, by the first entry under each key, or null if it leads to none |
| ConditionMeaning.LookupIff | rust/src/condition.rs:494-509 | and a value is found iff the path leads to it |
| ConditionMeaning.LiteralsMean | rust/src/condition.rs:513-517 | a literal has its own value |
| ConditionMeaning.ListsMean | rust/src/condition.rs:518 | a list is the list of its items' values |
| ConditionMeaning.TruthMeans | rust/src/condition.rs:408-422 | null, false, zero and what is empty do not hold, anything else does |
| ConditionMeaning.OrMeans | rust/src/condition.rs:264-327 | a parsed condition holds as it was written: an or-derivation iff one part does, an and-derivation iff all do, a negation iff its operand does not; brackets keep the value of a lone operand |
| PartialState.DropCoveredPaths | rust/src/graph.rs:39-49 | the paths left are prefix-free, come from the list, and cover every path of it |
| PartialState.InsertedIsFound | rust/src/graph.rs:104-119 | inserting a leaf where nothing is in the way makes its path lead to it |
| PartialState.InsertElsewhere | rust/src/graph.rs:104-119 | and leaves what paths not comparable with it lead to |
| PartialState.BuildPartial | rust/src/graph.rs:162-172 | on every kept path, the partial state looks the same as the whole one, and on paths that have nothing to do with those it is empty |
| PartialState.CoveredEval | rust/src/graph.rs:39-62 | a condition whose paths are covered evaluates the same on two states that agree on the covering paths |
| ConditionGrammar.OrHeight | rust/src/condition.rs:57-61 | the expression of a derivation within the budget is at most 65 high, however long it is |
| ConditionGrammar.OrPaths | rust/src/condition.rs:365-376 | no condition reads the empty path |
| ConditionParser.ParserIsExact | rust/src/condition.rs:264-377 | the parser accepts a token list, with a derivation, exactly when the tokens spell that derivation and it fits the depth budget |
| ConditionParser.GrammarIsUnambiguous | rust/src/condition.rs:264-377 | so no token list has two derivations within the budget |
| ConditionParser.Parse | rust/src/condition.rs:383-392 | given the tokens, the parser with its moving position returns the expression of that derivation, or the error of the descent; and succeeds iff there is one |
| ConditionParser.ErrorsAreNamed | rust/src/condition.rs:329-392 | what is said of six kinds of broken conditions |
| ConditionLexer.LexIsExact | rust/src/condition.rs:79-213 | a text is lexed to a list of tokens iff it is a way to write them: spellings of the tokens with spaces around, none of which would run on into what follows |
| ConditionLexer.NextIsSpelled | rust/src/condition.rs:83-210 | what is read as one token spells it and could not be read further |
| ConditionLexer.SpelledIsNext | rust/src/condition.rs:83-210 | and a spelling that does not run on is read as its token, whatever is behind it |
| ConditionLexer.SpellableIff | rust/src/condition.rs:114-241 | exactly the tokens that can be written: every string, every signed 64-bit integer, every word that is no keyword, the floats some number text stands for |
| ConditionLexer.TextIsReadExactly | rust/src/condition.rs:381-392 | a text is parsed to a derivation iff it is a way to write its tokens and the derivation is within the depth budget |
| ConditionLexer.ConditionsCanBeWritten | rust/src/condition.rs:381-392 | any spellings of the tokens of a derivation within the budget, written with spaces between, are parsed back to it |
| ConditionLexer.Lex | rust/src/condition.rs:79-213 | the loop gives those tokens, or the error of the first place that is none, and succeeds iff there are some |
| ConditionLexer.LexString | rust/src/condition.rs:114-146 | the loop over a string literal, escapes included, finds its end and its text, or that it has no end |
| ConditionLexer.LexNumber | rust/src/condition.rs:215-241 | the loop over a number takes digits and points with a digit behind them, and reads a float if there was a point, else an integer of 64 bits, or fails |
| ConditionLexer.ParseText | rust/src/condition.rs:381-392 | text in, expression out: it holds exactly where the derivation the text is a way to write does; with the errors of lexer and parser; no empty path, height at most 65 |
| ConditionParser.Parser.ParsePrimary | rust/src/condition.rs:329-377 | literals, references, lists and parentheses, as the derivation says, with the same errors and the same tokens left |
| ConditionParser.Parser.ParseItems | rust/src/condition.rs:350-364 | the loop over list items, trailing comma included |
| Reachability.NewEdgeAndCycles | rust/src/graph.rs:124-145 | an acyclic graph stays acyclic with a new edge iff its end does not reach its start |
| HandoffGraph.HandoffGraph.WouldCycle | rust/src/graph.rs:124-145 | the depth-first search with stack and seen set answers exactly whether `to` reaches `from` |
| HandoffGraph.HandoffGraph.CheckEdge | rust/src/graph.rs:214-226 | an edge is rejected for an invalid condition, then for closing a cycle, and for nothing else |
| HandoffGraph.HandoffGraph.AddEdge | rust/src/graph.rs:208-232 | a rejected edge leaves the graph as it was; an accepted one is appended, and with cycles forbidden the graph stays acyclic |
| HandoffGraph.HandoffGraph.PathsFor | rust/src/graph.rs:148-159 | the cached paths of a node are prefix-free and cover all conditions of its edges |
| HandoffGraph.HandoffGraph.Route | rust/src/graph.rs:240-269 | routing on the partial state answers `to` iff some edge to it matches the whole state and no earlier one does, and none iff none does; an edge matches iff it has no condition or its text, as written, holds |
| HandoffGraph.HandoffGraph.IsDag | rust/src/graph.rs:301-331 | true iff no node reaches itself by a non-empty path, with multi-edges and any pop order; the loop ends |
| Kahn.Finished | rust/src/graph.rs:318-331 | when nothing is ready, all nodes were settled iff there is no cycle |
| ShardedStore.Store.constructor | rust/src/store.rs:240-262 | an empty store, every shard and counter in place |
| ShardedStore.Store.Set | rust/src/store.rs:272-299 | the flat contents with one entry put; the shard's counter stays the sum of its lengths |
| ShardedStore.Store.SetMany | rust/src/store.rs:325-365 | shard by shard, the same as storing the entries in order |
| ShardedStore.Store.GetMany | rust/src/store.rs:371-399 | bucketed by shard, the same as a get for each pair, in the order asked |
| ShardedStore.Store.Delete | rust/src/store.rs:414-433 | removes the pair and tells whether it was there |
| ShardedStore.Store.DeleteMany | rust/src/store.rs:439-468 | removes the listed pairs and counts each present one once, however often it is listed |
| ShardedStore.Store.DeleteNamespace | rust/src/store.rs:471-481 | removes the pairs of the namespace and counts them |
| ShardedStore.Store.Clear | rust/src/store.rs:556-563 | empties the store and its counters |
| ShardedStore.Store.TakeSnapshot | rust/src/store.rs:569-613 | contents and counters as they are, the size of all values, the previous snapshot as parent; with a bound of zero no history, else the new snapshot last in it and before it the newest there is room for |
| ShardedStore.Store.Restore | rust/src/store.rs:634-642 | contents and counters of the snapshot |
| ShardedStore.SizeOfContents | rust/src/store.rs:575-579 | the sum of the shard counters is the total length of the values stored |
| ShardedStore.ShardsArePutAll | rust/src/store.rs:332-363 | entries stored shard by shard give the flat map they give in order |
| SnapshotDiff.Diff | rust/src/store.rs:140-191 | with the shortcuts for shared shards, namespaces and values, the three lists of the key-by-key comparison, each pair once |
| SnapshotDiff.DiffTakesBaseToMine | python/swarmstate/backends/_snapshot.py:58-66 | applying the diff to the base gives the newer snapshot |
| LockProtocol.StepKeepsInv | rust/src/store.rs:281-297 | every step of every thread keeps: locks are exclusive, a shard not held for writing is exactly what was applied to it whole and its counter its size, and a snapshot under way has seen one instant |
| LockRuns.SnapshotIsOneInstant | rust/src/store.rs:569-579 | a finished snapshot is the store at one instant within the call, no part of a batch half applied, every restore in all shards or in none, counters equal to sizes |
| LockRuns.RestoresAreAtomic | rust/src/store.rs:634-641 | in every reachable state all shards went through the same restores in the same order |
| LockRuns.EveryPartIsAppliedOnce | rust/src/store.rs:332-363 | in every reachable state a shard went through exactly the parts its writers are through with, each once |
| LockBatches.PairsEndAsABatchLeavesThem | rust/src/store.rs:325-365 | any number of `set_many`, `delete_many` and snapshots at once: when all are done the shards are one flat map in which a pair no batch names is as before, and one that some name is as one of those batches leaves it |
| LockBatches.OneBatchIsItsEffect | rust/src/store.rs:439-468 | one batch among any number of snapshots does to the store what it does to the flat map |
| LockBatches.SnapshotSeesWholeBatches | rust/src/store.rs:569-579 | a snapshot taken among batches holds every pair as before or as some batch that names it leaves it, never a value the batch replaces again |
| LockBatches.PartIsItsBucket | rust/src/store.rs:339-362 | what a writer does to a shard under its lock is, on the flat view, the bucket of that shard |
| LockRuns.NoDeadlock | rust/src/store.rs:569-579 | in every reachable state with an unfinished thread some thread has a step, even where waiting writers keep readers out |
| LockRuns.RunsFinish | rust/src/store.rs:634-641 | however threads are scheduled, a run takes exactly the steps its threads have to take and ends with all of them done |
| LateCounters.CounterIsRightIff | rust/src/store.rs:556-563 | whatever writes, late deletions, clears, snapshots (exact or not) and restores were run: the counter is right up to what is still to be counted off iff the last restore or zeroing met its condition |
| LateCounters.CounterIsExactIff | rust/src/store.rs:634-641 | with nothing going on any more it is the size of the shard iff so |
| LateCounters.QuietRestoreIsOk | rust/src/store.rs:569-579 | a snapshot taken and restored while no deletion is outstanding meets the condition, whatever went on in between |
| LateCounters.DeletionsOnlyLag | rust/src/store.rs:471-481 | without clears and restores the counter is never too small, and right iff no deletion that removed something has still to count it off |
| LateCounters.RestoreBetweenLosesBytes | rust/src/store.rs:471-481 | a restore between a deletion and its counting off leaves the counter short with nothing going on any more |
| LateCounters.LostBytesWrapAround | rust/src/store.rs:478-479 | which in the machine word is the size of the word minus the bytes lost |
| LateCounters.InexactSnapshotComesBack | rust/src/store.rs:634-641 | a snapshot taken between a deletion and its counting off, restored later, makes the counter too large for good |
| CodecForms.SingleIsRead | rust/src/codec.rs:331-335 | the five bytes of a 32-bit float, which is never written, are read as the double that is the same number: sign, value with subnormals, infinity or NaN |
| CodecForms.OneIsRead | rust/src/codec.rs:331-335 | `CA 3F 80 00 00` is read as 1.0 |
| PyValues.WideningKeepsTheNumber | rust/src/codec.rs:331-335 | widening keeps sign and value, an infinity stays one and a NaN a NaN |
| CodecForms.UnsignedIsRead | rust/src/codec.rs:344-353 | an unsigned integer of any width, over-long or not, is the number its bytes spell |
| CodecForms.SignedIsRead | rust/src/codec.rs:354-372 | a signed one the two's complement number they spell |
| CodecForms.DoubleIsRead | rust/src/codec.rs:336-343 | a 64-bit float has the bits its bytes spell |
| CodecForms.OneByteIsRead | rust/src/codec.rs:311-318 | the forms of one byte: small integers, null, false, true |
| CodecForms.RefusedForms | rust/src/codec.rs:401-406 | extension types and the reserved byte are refused |
| CodecForms.StringIsRead | rust/src/codec.rs:411-418 | behind any string header the body is read as the text it encodes, and as exactly its bytes if it encodes none |
| CodecForms.BytesAreRead | rust/src/codec.rs:319-330 | behind any bytes header as its bytes |
| CodecForms.ListIsRead | rust/src/codec.rs:424-435 | a list of n is the next n values, in order |
| CodecForms.DictIsRead | rust/src/codec.rs:437-450 | a dict of n is the next n keys and values in turn, each set in it: a key that is there stays in its place and takes the value |
| CodecForms.NumbersAreOneKey | rust/src/codec.rs:437-450 | `True`, 1 and 1.0 are one key, a float is the key of the whole number it is, a NaN of nothing |
| CodecRoundTrip.ReadingUndoesWriting | rust/src/codec.rs:71-139 | reading what was written, with any bytes behind it, gives the value with tuples as lists and uses up exactly what was written, iff no dict in it has a tuple for a key; else it fails for that reason |
| CodecRoundTrip.CutShortIsRefused | rust/src/codec.rs:267-299 | every proper prefix of an encoding is refused, and for want of input unless a dict in the value has a tuple for a key |
| CodecRoundTrip.EncodingIsInjective | rust/src/codec.rs:71-251 | for all values that are written, dicts with tuple keys included: equal bytes come from values equal up to tuples read as lists, and no encoding is the beginning of another |
| CodecRoundTrip.WrittenIff | rust/src/codec.rs:71-139 | a value is written iff its parts have a place in the format and it nests within 128 levels |
| CodecRoundTrip.DecodeExtends | rust/src/codec.rs:301-450 | unless the input ran out, reading does not depend on what comes behind |
| CodecRoundTrip.TupleKeyIsNotRead | rust/src/codec.rs:437-450 | a dict with a tuple key is written and refused on reading |
| CodecAccepts.WhatIsReadCanBeKept | rust/src/codec.rs:301-450 | whatever the decoder accepts can be written within the limit and is read back as it was: short floats, over-long integers, strings that are not UTF-8 and repeated keys included |
| CodecBuffers.Buffer.WriteObj | rust/src/codec.rs:71-139 | the recursive writer appends exactly the encoding, or stops with its error |
| CodecBuffers.Buffer.WriteI64 | rust/src/codec.rs:142-174 | the ladder of branches appends the form `CodecShortest.IntIsShortest` is about |
| CodecShortest.IntIsShortest | rust/src/codec.rs:142-181 | no bytes that are read as an integer are fewer than those written for it (the section on serialization of the MessagePack specification) |
| CodecShortest.StrHeaderIsShortest | rust/src/codec.rs:183-197 | nor any that are read as the header of a string |
| CodecShortest.BinHeaderIsShortest | rust/src/codec.rs:199-212 | of bytes |
| CodecShortest.ArrayHeaderIsShortest | rust/src/codec.rs:214-227 | of a list |
| CodecShortest.MapHeaderIsShortest | rust/src/codec.rs:229-242 | of a dict |
| CodecBuffers.Reader.ReadObj | rust/src/codec.rs:301-409 | the reader returns what decoding the rest of the input defines and stops where it says |
| CodecBuffers.Reader.ReadArray | rust/src/codec.rs:424-435 | the loop over the items |
| CodecBuffers.Reader.ReadMap | rust/src/codec.rs:437-450 | the loop over the entries, a repeated key overwriting the value and keeping its place |
| CodecBuffers.Reader.LenOf | rust/src/codec.rs:294-297 | the fold over the bytes is the big-endian number |
| CodecBuffers.Loads | rust/src/codec.rs:258-264 | bytes behind the first value are ignored |
| Utf8.DecodeOf | rust/src/codec.rs:411-418 | every string comes back from its UTF-8 bytes |
| Utf8.EncodeOf | rust/src/codec.rs:411-418 | bytes accepted as UTF-8 are the bytes of what they decode to (section 3 of RFC 3629) |
| Utf8.ExamplesOfTheStandard | rust/src/codec.rs:411-418 | the examples of section 7 of RFC 3629 |
| Utf8.ByteOrderIsCodePointOrder | python/swarmstate/backends/_prefix.py:3-9 | comparing UTF-8 bytes compares code points (section 1 of RFC 3629) |
| PrefixRange.PrefixUpperBound | python/swarmstate/backends/_prefix.py:27-37 | the loop that bumps or drops the last character computes the bound |
| PrefixRange.RangeIsExact | python/swarmstate/backends/_prefix.py:19-26 | a string starts with the prefix iff it lies from the prefix up to the bound |
| PrefixRange.BoundIsLeast | python/swarmstate/backends/_prefix.py:20 | the bound is above every string with the prefix, and the least string that is |
| PrefixRange.NoneMeansNoBound | python/swarmstate/backends/_prefix.py:22-26 | None is returned iff nothing is above all strings with the prefix, iff it is empty or made only of U+10FFFF |
| PrefixRange.ByteRangeIsExact | python/swarmstate/backends/_prefix.py:3-9 | the same range over the stored bytes, as the index compares them |
| DumpFormat.OneEntryDumped | python/swarmstate/portability.py:114-123 | the dump of a store with one entry, byte for byte |
| DumpFormat.FramesAreParsed | python/swarmstate/portability.py:143-168 | frames that were written are parsed to their entries, whatever comes behind |
| DumpFormat.CutDumpIsRefused | python/swarmstate/portability.py:143-157 | a dump cut at any byte: on the first byte of a frame it is the dump of exactly the entries before, inside a frame those entries and a truncated end, inside the header no dump |
| DumpFormat.NoVersionIff | python/swarmstate/portability.py:144-148 | the version byte is missing iff the file is the magic alone |
| DumpFormat.LoadRaisesIff | python/swarmstate/portability.py:143-168 | for every file and batch size, exactly when a load raises an index, a type or a value error |
| DumpFormat.UnhashableFrameRaisesTypeError | python/swarmstate/portability.py:149-160 | a file of one frame, a map with a list for a key, raises a type error |
| DumpFormat.BatchesDoNotMatter | python/swarmstate/portability.py:161-168 | for every batch size, a load succeeds iff the file is whole and its names are text, and then stores every entry |
| DumpFormat.BrokenFileLeavesBatches | python/swarmstate/portability.py:161-168 | a broken file leaves exactly the full batches before the break |
| DumpFormat.FrameIff | python/swarmstate/portability.py:114-123 | of what a store holds, exactly what nests at most 127 levels and is short enough has a frame |
| DumpFormat.DeepestValueIsNotDumped | python/swarmstate/portability.py:119 | a value 128 levels deep is stored and has none |
| Portability.Entries | python/swarmstate/portability.py:44-58 | exactly the stored pairs whose namespace begins with the prefix, character by character, each once with its value, stored Nones included, in batches no larger than asked |
| Portability.CopyStore | python/swarmstate/portability.py:61-84 | the destination holds what the source held for every such pair and for all others what it held before; they are counted; a batch size below one is refused |
| Portability.WriteDump | python/swarmstate/portability.py:114-123 | the file is the header and the frames of the selected entries, up to the first that has none |
| Portability.LoadDump | python/swarmstate/portability.py:143-168 | reading header, frames and batches of 1000 from a file that gives short reads at its end loads what the parsed file says, with its error |
| Portability.LoadingADumpOverrides | python/swarmstate/portability.py:126-140 | loading the dump of a store into any store overrides that store with what was dumped, for every order of entries and every batch size |
| Portability.DumpThenLoad | python/swarmstate/portability.py:87-140 | the same for whatever file `WriteDump` wrote without an error |
| Portability.LoadingACutDump | python/swarmstate/portability.py:143-168 | loading a dump cut on the first byte of a frame loads exactly the entries before it; cut inside a frame it fails as truncated and leaves exactly the full batches of the entries before; cut in the header it fails and leaves the store as it was |
| Portability.DumpedIff | python/swarmstate/portability.py:114-123 | a store can be dumped iff every selected entry has a frame |

## Left out

- SaverSteps.CopyStep: one namespace at a time; `CopyThread` is a sequence of such steps and is not itself stated as a run.
- Saver.SwarmStateSaver.DeleteThread: for a thread id that is free of the separator and that no other id with rows extends by it; what happens otherwise is in `StoredNames`, name by name.
- Saver.SwarmStateSaver.CopyThread: for such ids only, as `DeleteThread`.
- Saver.SwarmStateSaver.PruneToLatest: for such ids only, as `DeleteThread`.
- Saver.SwarmStateSaver.PrunedIsSmall: with delta channels the ancestors kept have no bound of their own.
- Portability.Entries: lists all batches before the first is stored, where the generator hands them out one by one; with an unchanging source the two agree.
- PartialState.InsertedIsFound: `insert_path` is modelled on values, not in place; aliasing is not captured.
- PartialState.DropCoveredPaths: which of several equal paths is kept is not tracked.
- LockProtocol.StepKeepsInv: `delete_namespace` and `clear` are not among its writers, since their counters move after the lock; `LateCounters` treats them, one shard at a time.
- LockRuns.SnapshotIsOneInstant: snapshot ids, parents and history are taken after the locks and are modelled for sequential runs only.
- PyValues.WideningKeepsTheNumber: which NaN a NaN becomes is not stated; a signalling one is read as a quiet one.
- CodecBuffers.Reader.ReadObj: the table of markers is a function shared with the specification; subclasses of Python's types and memory limits are not modelled.
- ConditionLexer.LexNumber: the value of a float's text is a parameter; which characters are letters, numbers and spaces too, with what Unicode promises of them.
- Reading states through Python mappings and attributes (`child` in `rust/src/graph.rs`): states are nested maps.
- ConditionMeaning.ComparisonsMean: how two floats compare, and an integer as a float, are parameters; every law holds for any.
- The decoded-record cache of `list`, filters and `before` of `list`, and `list` itself: reads over rows whose contents are modelled here.
- SQL, Redis and Postgres backends, connection handling, transactions: foreign systems; the store is a map with or without an index on ids.
- Opening, renaming and removing files in `dump_store`: I/O; a file is a byte sequence read in pieces.
- Lock poisoning, the interpreter lock, metrics, tracing, timestamps, keyword search.
