# AegisDB in Dafny

A model of AegisDB, a memory store for agents written in C: an append-only log of
record versions, indexes derived from it, a server that answers one JSON line at a
time, an inference job that writes conclusions next to the facts they follow from,
and a replication stream. Each part below is modelled in the form the code has, and
proved to do what the code and its comments promise, for every input and every run.

Two forms are used. Where the point is what concurrent jobs do to each other, the
model is a step system: one step per critical section, any interleaving, and an
invariant kept by every step. Where the point is an algorithm, the model is a class
or a method with the loops and in-place updates of the code, proved against a
function or a property that does not mention it.

| file | what it models |
|---|---|
| `Facts` | triples, the predicate registry, rule instances, logical closure |
| `TruthMaintenance`, `Retraction` | derived records, their links to premises, and the retraction job |
| `Routes` | a record's justifications: a sorted set of at most four |
| `Inference`, `InferenceLaws`, `InferenceJob` | one inference pass, repeated passes, and writing what a pass found |
| `Merging`, `Consolidation` | folding near-duplicates together, and what that does to conclusions |
| `FrameLog`, `Compaction` | the log, the hash index, and compaction beside writers and readers |
| `Replication` | a follower's log against the primary's, across reconnects and compactions |
| `IndexAgreement` | the secondary indexes as one function of the log |
| `Counting`, `Probing`, `ProbeTables` | open addressing, shared by every table |
| `EdgeIndex`, `EdgeKinds` | the reverse relationship index and its kind filter |
| `Traversal` | the bounded breadth-first walk |
| `Codec`, `CodecLaws`, `CodecIO` | the record encoding, its laws, and the encoder and decoder |
| `Selection` | ranking by a bounded heap, and paging |
| `Tenants` | per-namespace quotas |
| `Connection` | request framing on a client connection |

## What is proved

1. **Nothing unsupported survives.** In every interleaving of client writes, inference
   and retraction, a live conclusion without a live route is queued, under check, about
   to be queued by a link that will fail, or has outlived a premise whose link a limit
   refused. No retraction is ever wrong, in any run. Retraction with a positive cap
   terminates. Once nothing is outstanding, every live conclusion is supported exactly
   when those that lost a link are, and then every live triple has a finite proof from
   live asserted facts of its own namespace. The links in question are the edges to a
   premise refused by the relationship cap or the tenant quota, which the writer only
   logs: `RefusedLinkExactly` says precisely when a refusal does harm, and
   `RefusedLinkStrands` is a run that ends with a live conclusion and no facts at all.
2. **Compaction changes no id's version or status**, under any interleaving with
   appends, aborts and readers; only a tombstone older than the snapshot may be
   forgotten. A reader that pinned an offset reads the version it resolved.
3. **A follower's log is a prefix of one generation of the primary's**, frame for frame
   and offset for offset, at every moment of every run.
4. **The primary's index maintenance and a replica's frame-by-frame apply agree**, and
   equal one function of the log, for logs whose frames never revive an id that live
   records already list. A compacted log replays to it exactly when no frame lists the
   id of a later one, and bucket order does not guarantee that.
5. **A traversal that was not capped returns exactly the visible records within the
   depth**, each once, at its shortest distance, reached from a record one level up.
   The edges are those the records themselves list, in both directions, whenever the
   reverse index is in step with them.
6. **The edge index is a map from target to sorted postings**, with exact counters. Its
   postings stay in step with the true edges through a run exactly when no removal takes
   a posting two edges share, and its kind filter then answers exactly. Two kinds too
   long to intern make a run in which removing one edge hides the other.
7. **An inference pass that was not cut short is exact** and independent of order. After
   n passes from assertions, the facts are exactly what follows by rules nested at most
   n deep, or at most the depth cap, and there the passes stop.
8. **Merging loses no stated triple**, and a conclusion stands afterwards exactly when
   some route's premises are each still judged by a record within reach of eight notes.
   Which triples are asserted rather than concluded it may change, both ways; the
   condition under which it does not is exact, and there is a witness for each failure.
9. **A record decodes from its own encoding**, and whatever the decoder accepts can be
   encoded again and decodes to itself.
10. **The bounded heap returns the front of the full ranking.** The pages the server
    gives tile it exactly as long as the last one starts within the largest offset it
    honours, or the list is no longer than that.
11. **Usage is the true count and encoded length of a namespace's live records**, and an
    insert, update or relate is refused for quota exactly when what it would leave live
    does not fit.
12. **What a client receives does not depend on how bytes were split**: it is always a
    front of the responses its complete lines call for.

Where the code and its comments differ, the code is followed. `hash_index_get` returns
nothing for a tombstone, so relating to a deleted record is refused without a namespace
as well as with one. The edge from a conclusion to its premise is best effort, as above. A merge is said not to
destroy an assertion; it keeps the triple, but may leave it only concluded.

## Model

| member | source | states |
|---|---|---|
| `Facts.ClosureStep` | src/query/inference.c:421-556 | the closure is closed: a rule applied to members of the closure yields a member, which is what repeated passes are measured against |
| `TruthMaintenance.StepKeeps` | src/query/qe_infer.c:826-969 | a step (insert, adopt, conclude, link, relate, delete, drain, open, liveness read, withdraw) keeps the invariant that an unsupported conclusion is never forgotten if and only if it does not refuse a link that is needed, and always keeps it up to the links lost |
| `TruthMaintenance.RunKeeps` | src/query/qe_infer.c:826-969 | at every point of every run from the empty store an unsupported conclusion is under review, or outlived a premise whose link was lost |
| `TruthMaintenance.RunKeepsExactly` | src/query/qe_infer.c:826-969 | of all runs: the invariant has held throughout with nothing lost if and only if no needed link was refused |
| `TruthMaintenance.KillNotices` | src/query/query_engine.c:601-661 | when a delete takes a conclusion's last route, the conclusion was linked to the premise, or still owed the link, and so is queued or will be; or that link was lost |
| `TruthMaintenance.WithdrawnHadNoSupport` | src/query/qe_infer.c:890-905 | in every run, at the moment a record is withdrawn every one of its routes has a dead premise, though premises were read one lock at a time |
| `TruthMaintenance.Grounded` | src/query/qe_infer.c:890-969 | where every live conclusion is supported, each live record has a finite proof tree of live records whose leaves are asserted |
| `TruthMaintenance.RestingExactly` | src/query/qe_infer.c:890-969 | with nothing outstanding, every live conclusion is supported if and only if those that outlived a premise behind a lost link are |
| `TruthMaintenance.ProofMeansClosure` | src/query/qe_infer.c:890-969 | such a proof puts the triple in the logical closure of the namespace's asserted facts |
| `TruthMaintenance.QuiescentStoreIsEntailed` | src/query/qe_infer.c:259-326 | in every run, whenever nothing is outstanding and whoever outlived a premise behind a lost link has another route, every live triple is proved from live asserted facts of its own namespace |
| `TruthMaintenance.QuiescentExactly` | src/query/qe_infer.c:259-326 | that condition is exact: a store at rest has an unsupported live record if and only if it fails; it holds whenever no needed link was refused |
| `TruthMaintenance.RefusedLinkExactly` | src/query/query_engine.c:768-780 | refusing an owed link keeps the invariant if and only if an end is already gone, the edge is already there, or the same link is owed once more; otherwise it holds again once the link is counted as lost |
| `TruthMaintenance.RefusedLinkStrands` | src/query/qe_infer.c:295-318 | a concrete run: one refused link, then the premise is deleted, and the store rests with a live conclusion and no asserted fact |
| `Retraction.Store.Insert` | src/query/query_engine.c:331-355 | a new live asserted record under the next id; the invariant is kept |
| `Retraction.Store.Enqueue` | src/query/qe_infer.c:826-849 | exactly the conclusions citing the id are appended to the queue |
| `Retraction.Store.Delete` | src/query/query_engine.c:601-661 | dependents are queued before the edges naming them go, and the record is tombstoned |
| `Retraction.Store.LinkPremise` | src/query/qe_infer.c:295-318 | the link is made, refused, or, when an end is gone, the conclusion is queued for judgement |
| `Retraction.Store.WriteConclusion` | src/query/qe_infer.c:259-326 | the derived record is inserted and each premise linked in turn, leaving no link owed; it is queued if a premise had gone; the invariant is kept, and no link is lost if no limit refused one |
| `Retraction.Store.DerivationStands` | src/query/qe_infer.c:890-905 | true if and only if the record is asserted or some route has all its premises live |
| `Retraction.Store.Judge` | src/query/qe_infer.c:946-962 | the record is withdrawn if and only if it is live and does not stand |
| `Retraction.Store.RetractStep` | src/query/qe_infer.c:907-969 | with work queued and a positive cap the step makes progress: fewer live records, or a shorter queue |
| `Retraction.Store.DrainAll` | src/query/qe_infer.c:907-969 | repeated steps empty the queue; what is then live all stands if and only if the conclusions that lost a link do, and is then entailed by its namespace's asserted facts |
| `Routes.CmpOrder` | src/memory/record.c:254-269 | the comparison is a total order whose equality is same premises and same rule |
| `Routes.RouteCmp` | src/query/inference.c:305-318 | common prefix, then lengths, then rules: the loop computes that order |
| `Routes.InsertSorted` | src/query/inference.c:323-349 | insertion keeps the set sorted and within four |
| `Routes.InsertCovers` | src/query/inference.c:323-349 | insertion keeps account of every route ever offered: present, or beyond a full set |
| `Routes.RoutesInsert` | src/memory/record.c:271-328 | the in-place insertion with its displacement at the cap gives that set, and reports a change exactly when there was one |
| `Routes.KeptUnique` | src/query/inference.c:323-349 | the kept set is determined by the routes offered, in whatever order |
| `Inference.LoadTables` | src/query/inference.c:447-462 | every input triple is known as an input, and exactly the facts with a record object are indexed by subject and predicate |
| `Inference.Pass.Consider` | src/query/inference.c:368-419 | offering a candidate merges its route, records it, or ends the pass at the output cap; all that was offered stays accounted for |
| `Inference.Pass.Reverse` | src/query/inference.c:482-515 | unless stopped, every conclusion of the symmetric or inverse rule from the fact has been offered |
| `Inference.Pass.Join` | src/query/inference.c:517-539 | unless stopped, every transitive conclusion starting with the fact has been offered |
| `Inference.Pass.ScanAll` | src/query/inference.c:470-540 | unless stopped, every fact has been scanned, starting anywhere and wrapping round |
| `Inference.InferRun` | src/query/inference.c:421-556 | whatever the caps, each conclusion is new and each route genuine; untruncated, exactly the one-step consequences come back, with the least four routes and the strongest kept confidence; within the work budget only a result that really misses something is called truncated |
| `InferenceLaws.DepthInRange` | src/query/inference.c:277-300 | a route's depth lies in 1..max_depth without wrapping, and above each of its premises |
| `InferenceLaws.OrderIrrelevant` | src/query/inference.c:305-362 | two untruncated passes over permuted facts give the same conclusions, routes and confidence |
| `InferenceLaws.StageShrinks` | src/query/qe_infer.c:551-617 | a pass that draws anything leaves strictly less of the finite universe undrawn |
| `InferenceLaws.EmptyPassSaturated` | src/query/inference.c:421-556 | when a pass draws nothing, every rule application on facts below the depth cap is already present |
| `InferenceLaws.PassesReachClosure` | src/query/qe_infer.c:551-617 | among any long enough run of passes one draws nothing; at such a stage every rule application below the depth cap is present, and nothing outside the closure of the original facts |
| `InferenceLaws.StageIsBoundedClosure` | src/query/qe_infer.c:551-617 | starting from assertions, after n passes a triple is a fact if and only if it follows by rules nested at most n deep, or at most the depth cap |
| `InferenceLaws.PassesStop` | src/query/qe_infer.c:551-617 | every pass after as many as the depth cap draws nothing |
| `InferenceJob.SnapshotLasts` | src/query/qe_infer.c:62-104 | a snapshot of a namespace's facts stays truthful about what records assert through any other steps |
| `InferenceJob.PassMayWrite` | src/query/qe_infer.c:551-617 | however much happened since the snapshot, writing any conclusion of the pass is a legitimate step of the truth-maintenance system |
| `Merging.SupersedeLookup` | src/query/qe_infer.c:1026-1046 | the newest note about an id is the one found |
| `Merging.SupersedeResolve` | src/query/qe_infer.c:1048-1058 | follows at most eight notes, and resolves to nothing only for an id never absorbed |
| `Merging.IdIsLive` | src/query/qe_infer.c:852-885 | an id reads as live if and only if its record is, or whatever absorbed it within eight notes is |
| `Merging.DerivationStands` | src/query/qe_infer.c:890-905 | true if and only if the record is asserted or all premises of some route read as live, notes followed |
| `Merging.StatedKept` | src/query/qe_maint.c:404-467 | a triple is stated by a live record, asserted or derived, after a merge if and only if it was before |
| `Merging.BaseExactly` | src/query/qe_maint.c:404-532 | the triples asserted rather than concluded are the same after a merge if and only if an asserted survivor ends with a triple already asserted, or with none, and a derived one absorbs no assertion that nobody else makes |
| `Merging.DerivedSurvivorForgets` | src/query/qe_maint.c:394-402 | a conclusion newer than a client's assertion of the same triple absorbs it, and falls with its premise |
| `Merging.AdoptedConclusionOutlives` | src/query/qe_maint.c:415-440 | a newer record of prose adopts the triple of a conclusion it absorbs, and asserts it after the premise is gone |
| `Merging.LiveExactly` | src/query/qe_infer.c:852-885 | a premise reads as live after a merge if and only if it did before and its record was not absorbed, or was absorbed with a note and a hop to spare |
| `Merging.StandsExactly` | src/query/qe_infer.c:890-905 | a surviving conclusion stands after a merge if and only if one of its routes stood before on premises all carried over |
| `Merging.StillStands` | src/query/qe_infer.c:988-1058 | with room for the notes and every premise within seven hops, a conclusion that stood still stands |
| `Merging.NinthMergeLoses` | src/query/qe_infer.c:1048-1058 | a premise already eight merges old is lost by the ninth |
| `Consolidation.ChooseSurvivor` | src/query/qe_maint.c:394-402 | the member updated last, ties to the greater id |
| `Consolidation.ChooseFact` | src/query/qe_maint.c:404-441 | the survivor's own fact; failing that the one with most votes, ties to the earliest member; none only if no member asserts anything |
| `Consolidation.Partition` | src/query/qe_maint.c:443-468 | exactly the members asserting nothing, or what the survivor will assert, fold |
| `Consolidation.FoldFields` | src/query/qe_maint.c:479-517 | tags are the union without repeats, weights the greatest among the folding members |
| `Consolidation.Corpus.Repoint` | src/query/qe_maint.c:375-390 | every conclusion citing the loser cites its heir too, where its limits admit |
| `Consolidation.Corpus.AbsorbOne` | src/query/qe_maint.c:565-589 | the loser is noted, its citers queued and repointed, and only it goes |
| `Consolidation.Corpus.MergeCluster` | src/query/qe_maint.c:392-592 | the planned losers are absorbed, or nothing is written; the survivor holds the chosen fact, the folded fields and the relationships its limits admit; what live records state is unchanged, and what they assert exactly under the condition above |
| `FrameLog.ReadPrefix` | src/storage/log.c:439-466 | appending changes nothing readable before |
| `FrameLog.HashMeaning` | src/storage/hash_index.c:75-102 | the hash points each id at its last version in the log |
| `Compaction.StepKeeps` | src/storage/compaction.c:115-294 | every step (append, snapshot, copy, swap, abort, resolve, release) keeps log, hash, scratch copy and pinned readers consistent |
| `Compaction.SwapPreserves` | src/storage/compaction.c:209-272 | the swap changes no id's latest version or status, but for a tombstone already there at the snapshot |
| `Compaction.StepRefines` | src/storage/compaction.c:47-294 | seen from outside there are only writes: every compaction and reader step changes nothing |
| `Compaction.RunContents` | src/storage/compaction.c:47-294 | in every run each id's live record is the last version written for it, and a deleted one stays gone |
| `Compaction.ReaderConsistent` | src/query/query_engine.c:186-207 | a reader that resolved an id and holds the log lock gets the version the id had when resolved, whatever ran in between |
| `Compaction.Store.AppendAndHash` | src/query/query_engine.c:97-163 | the version is appended and the hash points at it; the step system's append |
| `Compaction.Store.Snapshot` | src/storage/compaction.c:47-69 | captures every live entry, each id once, with the log's size: the job's part of the invariant |
| `Compaction.Store.CopyLive` | src/storage/compaction.c:77-107 | no captured frame is unreadable, and the scratch log ends as the invariant demands: each captured frame in order, with its new offset |
| `Compaction.Store.DrainTail` | src/storage/compaction.c:154-187 | stepping by frame size appends exactly the frames written since the snapshot |
| `Compaction.Store.DrainAndSwap` | src/storage/compaction.c:154-272 | the swap installs the scratch log and the hash rebuilt from the new locations |
| `Replication.StepKeeps` | src/server/replication.c:146-368 | every step of primary, wire and follower keeps the follower's log, its generation and the frames in flight aligned |
| `Replication.FollowerIsPrefix` | src/server/replication.c:535-698 | at every point of every run the follower's log is a prefix of one generation of the primary's, at equal offsets |
| `Replication.DeliveryIsNext` | src/server/replication.c:265-346 | a frame the follower applies is the next of the generation its session opened on, and within its codec version |
| `Replication.CaughtUp` | src/server/replication.c:265-346 | nothing in flight and everything sent means equal logs |
| `IndexAgreement.ReplicaFrameExactly` | src/storage/db.c:248-336 | applying one frame keeps the replica's indexes the function of its log if and only if the frame does not revive an id that live records list |
| `IndexAgreement.ReplayAgrees` | src/storage/db.c:248-336 | a log of such frames, replayed, gives the indexes the whole log determines |
| `IndexAgreement.CompactedExactly` | src/storage/compaction.c:47-107 | a compacted log (each id once, all live) replays to the indexes it determines if and only if no frame lists the id of a later frame |
| `IndexAgreement.CompactedOrderMayDiffer` | src/storage/compaction.c:47-107 | an instance: a two-record log in bucket order whose replay loses an edge |
| `IndexAgreement.Db.Insert` | src/query/query_engine.c:331-355 | the new record is indexed, and the indexes are still the function of the log |
| `IndexAgreement.Db.Update` | src/query/query_engine.c:530-580 | tags swing and an adopted fact is added only after the append; a refused update changes nothing |
| `IndexAgreement.Db.Relate` | src/query/query_engine.c:729-795 | idempotent, capped, both ends live; the edge is indexed after the append |
| `IndexAgreement.Db.Delete` | src/query/query_engine.c:601-661 | every entry of the record and every edge into it goes, and the indexes are the function of the log with the tombstone |
| `IndexAgreement.Db.ApplyFrame` | src/storage/db.c:248-336 | the loops drop the prior version's entries and add this one's, as the one-frame function says |
| `IndexAgreement.Db.ReplicaEqual` | src/storage/db.c:248-336 | a replica of everything written so far has the primary's very indexes |
| `Probing.ProbeMiss` | src/storage/edge_index.c:195-211 | an empty slot met before the key means the key is absent |
| `Probing.Retire` | src/storage/edge_index.c:282-289 | a tombstone leaves every other key reachable and removes just one from the map |
| `ProbeTables.Probe` | src/query/inference.c:103-118 | probing terminates, at the key's slot or at the empty slot that proves it absent |
| `ProbeTables.Rehash` | src/storage/edge_index.c:213-236 | the larger table stands for the same map, without tombstones |
| `ProbeTables.SumOfView` | src/storage/edge_index.c:213-236 | a sum over occupied slots depends on the map alone, not on where its keys sit |
| `ProbeTables.GrowMap.Put` | src/query/inference.c:122-145 | the map gains exactly the binding, growing at three quarters full |
| `EdgeIndex.LowerBound` | src/storage/edge_index.c:309-322 | the first posting not before the key; the key is in the list if and only if it is there |
| `EdgeIndex.Index.KindIntern` | src/storage/edge_index.c:75-119 | the kind's id; a new one only for a name of 1 to 64 bytes while fewer than 4096 are held |
| `EdgeIndex.Index.KindLookup` | src/storage/edge_index.c:124-134 | the kind's id without minting one |
| `EdgeIndex.Index.Find` | src/storage/edge_index.c:195-211 | the target's slot if and only if it has postings |
| `EdgeIndex.Index.Reserve` | src/storage/edge_index.c:213-278 | room for one more target; the map and every counter unchanged |
| `EdgeIndex.Index.Add` | src/storage/edge_index.c:324-368 | the map gains exactly this posting, sorted and without repeats; counters stay exact; names only ever grow |
| `EdgeIndex.Index.Remove` | src/storage/edge_index.c:370-396 | the map loses exactly this posting, and its target with its last one |
| `EdgeIndex.Index.RemoveTarget` | src/storage/edge_index.c:398-411 | the map loses exactly the target, and every counter is corrected |
| `EdgeKinds.Sources` | src/storage/edge_index.c:413-494 | the postings of the target that the filter keeps, in order, with kinds named back |
| `EdgeKinds.AddKeepsFaith` | src/storage/edge_index.c:75-119 | adding keeps postings and true edges in step, because a kind that failed to intern never interns later |
| `EdgeKinds.RemoveExactly` | src/storage/edge_index.c:370-396 | a removal keeps them in step if and only if no other edge between the same ends shares the posting |
| `EdgeKinds.TwinsUninternable` | src/storage/edge_index.c:75-119 | only kinds that could not be interned ever share one |
| `EdgeKinds.RunFaithful` | src/storage/edge_index.c:324-411 | of all runs of adds, removals and dropped targets: postings and true edges have stayed in step if and only if no removal took a posting another edge still needed |
| `EdgeKinds.BenignIsSafe` | src/storage/edge_index.c:75-119 | a run without removals, and one whose kinds were all interned, is such a run |
| `EdgeKinds.SharedPostingLoses` | src/storage/edge_index.c:370-396 | any two distinct kinds longer than 64 bytes between the same ends: removing one edge leaves the other true and a query for its kind empty |
| `EdgeKinds.FilterComplete` | src/storage/edge_index.c:413-494 | an edge whose true kind is asked for is returned |
| `EdgeKinds.FilterPrecise` | src/storage/edge_index.c:413-494 | a result not marked unknown is a true edge of a kind asked for |
| `EdgeKinds.FilterExactly` | src/storage/edge_index.c:413-494 | the answers are exactly the true edges whose kind was asked for, or that cannot be ruled out because neither they nor some kind asked for has an id; each told with its kind where that is known |
| `EdgeKinds.FilterCorrect` | src/storage/edge_index.c:413-494 | both, at every point of every run in which no removal has taken a shared posting |
| `EdgeKinds.FilterAlways` | src/storage/edge_index.c:413-494 | exact in that sense at every point of every such run |
| `Traversal.SeenInsert` | src/query/query_engine.c:888-901 | marks the id and says whether it was unmarked; always terminates, since the node cap leaves room; id 0 is never held |
| `Traversal.Claim` | src/query/query_engine.c:989-1014 | each stored id of the frontier not seen before, once, in order; all of them unless the node cap stops it |
| `Traversal.Collect` | src/query/query_engine.c:1028-1083 | the visible ones are returned, and exactly their wanted outgoing edges go on the next frontier |
| `Traversal.Backward` | src/query/query_engine.c:1096-1118 | exactly the filtered incoming edges of the records returned at this level |
| `Traversal.BackwardIsEdge` | src/query/query_engine.c:1096-1118 | a backward step is exactly a true edge towards the record that answers the query, and its kind is certain just when it has an id |
| `Traversal.SafeRunIndexes` | src/query/query_engine.c:768-795 | an index kept by one operation per edge the records gained or lost is in step with the records, if no shared posting was taken |
| `Traversal.DirectionsDiffer` | src/query/query_engine.c:1028-1118 | the two directions filter an edge differently only for an empty kind asked for by name, and for a kind that backwards cannot be ruled out |
| `Traversal.LinkedIsRecord` | src/query/query_engine.c:1028-1118 | with the index in step, a walk steps from a to b if and only if a lists the edge, or b does and the walk goes backwards |
| `Traversal.ReachIsPaths` | include/aegisdb/query_engine.h:292-299 | a record is within n edges if and only if a path of visible records and matching edges of that length ends at it |
| `Traversal.ReachIsRecords` | include/aegisdb/query_engine.h:292-299 | and if and only if a path of visible records joined by edges they themselves list ends at it |
| `Traversal.Level` | src/query/query_engine.c:973-1125 | one level completes the records at that distance and leaves exactly the edges out of them |
| `Traversal.Traverse` | src/query/query_engine.c:925-1166 | uncapped, exactly the records within the depth, each once, at its shortest distance, through a record one level up, and, forwards or with the index in step, exactly those a path over the records' own relationships reaches; capped, still sound, and that many ids really were met; a one-hop forward walk is never capped |
| `Codec.AllRound` | src/memory/record.c:459-486 | a counted run of items parses back from its printing if each item does |
| `CodecLaws.RoundTrip` | src/memory/record.c:414-546 | a well-formed record decodes from its encoding, whatever bytes follow |
| `CodecLaws.ParsedWellFormed` | src/memory/record.c:623-836 | what the decoder accepts is well formed and encodable, and its version tells exactly whether it has a fact and a derivation |
| `CodecLaws.ReadStable` | src/memory/record.c:623-836 | any accepted bytes give a record that encodes, and decodes to itself again |
| `CodecLaws.PrintInjective` | src/memory/record.c:414-546 | two well-formed records with one encoding are the same record |
| `CodecLaws.InsertedRound` | src/memory/record.c:775-818 | routes written in order are re-inserted in order and none is refused |
| `CodecIO.Encode` | src/memory/record.c:414-546 | refuses exactly the records with no encoding, and otherwise writes the format |
| `CodecIO.Decode` | src/memory/record.c:623-836 | the cursor with its sticky error gives exactly what the format says |
| `CodecIO.FloatsFit` | src/memory/record.c:692-704 | the division-form bound admits exactly the counts whose floats are all there |
| `CodecIO.Cur.TakeStr` | src/memory/record.c:594-621 | a null marker, a truncation and an embedded NUL are told apart as the format says |
| `Selection.CompareTotal` | src/query/qe_search.c:221-268 | both comparators are total orders, equal only on equal ids |
| `Selection.SiftUp` | src/query/qe_search.c:298-310 | restores the heap over the same indices after an append |
| `Selection.SiftDown` | src/query/qe_search.c:274-294 | restores the heap over the same indices after the root is replaced |
| `Selection.KeepBest` | src/query/qe_search.c:339-349 | the heap holds the k best of what was scanned: everything left out ranks after everything kept |
| `Selection.SelectTop` | src/query/qe_search.c:317-364 | the selection is the first k of the full ranking |
| `Selection.Page` | src/query/qe_search.c:808-866 | a page is the slice of the full ranking at the clamped offset |
| `Selection.PageExactly` | src/query/qe_search.c:808-810 | the page is the slice asked for if and only if the offset is in range or the list is short |
| `Selection.PagesTile` | src/query/qe_search.c:851-866 | the pages the server gives, laid end to end, are the ranking, nothing repeated and nothing left out, if and only if the last one starts in range or the list is short |
| `Selection.LongListRepeats` | src/query/qe_search.c:808-810 | on a list one longer than the largest offset, the page after the last is the last one again |
| `Tenants.TenantTable.Adjust` | src/util/tenant.c:86-108 | one namespace's counters move by the differences, floored at zero; the others stay |
| `Tenants.TenantTable.WouldExceed` | src/util/tenant.c:110-130 | refuses exactly a positive addition past a configured limit |
| `Tenants.AfterSums` | src/query/query_engine.c:129-136 | what a write changes in the true totals of its own namespace and of the others |
| `Tenants.ExceedsExactly` | src/query/query_engine.c:137-146 | the test on positive differences is the test on the resulting totals |
| `Tenants.DeleteFits` | src/query/query_engine.c:137-146 | a delete never takes a namespace past a quota it was within |
| `Tenants.ChargedAgrees` | src/query/query_engine.c:159-161 | charging the differences keeps the table equal to the sums over live records |
| `Tenants.Store.AppendAndHash` | src/query/query_engine.c:97-163 | refused for quota exactly when the records it would leave live do not fit; usage stays exact and within quota for every namespace |
| `Tenants.Store.Insert` | src/query/query_engine.c:320-355 | a fresh record, or no change; the status is exactly what encodability, the quota and the frame limit make it |
| `Tenants.Store.Update` | src/query/query_engine.c:388-560 | the patched record replaces the old one, or nothing changes; not found exactly for foreign and missing ids, immutable exactly for a record that is not semantic, refused for quota exactly when the patched record does not fit |
| `Tenants.Store.Relate` | src/query/query_engine.c:711-795 | invalid exactly for a self-relation or an over-long kind, not found exactly when either end is missing or foreign; otherwise nothing changes if already related, the cap refuses, or one more relationship is stored with exactly the refusal its size calls for |
| `Tenants.Store.Delete` | src/query/query_engine.c:601-661 | removes the record and is never refused for quota |
| `Connection.RepliesGrow` | src/server/tcp_server.c:142-197 | more input only adds to the responses owed |
| `Connection.Conn.Read` | src/server/tcp_server.c:201-234 | the buffer gains a front of what arrived, something whenever there is input and no over-long line, and never outgrows the limit by more than one byte |
| `Connection.Conn.Flush` | src/server/tcp_server.c:116-136 | bytes go out in order until the kernel would block, and the staged response is dropped only once all of it has gone |
| `Connection.Conn.Answer` | src/server/tcp_server.c:165-195 | the line and its newline are consumed, a carriage return tolerated, an empty line skipped, and at most one response staged |
| `Connection.Conn.Refuse` | src/server/tcp_server.c:145-162 | an over-long line gets one error, after which the connection closes |
| `Connection.Conn.Advance` | src/server/tcp_server.c:142-197 | answers lines until one is incomplete or a response is not fully sent, keeping sent, staged and buffered bytes equal to the responses owed |
| `Connection.Session` | src/server/tcp_server.c:116-234 | for any splitting of reads and writes, what was sent is a front of the responses to the input, and all of them when the server waits for input |

## Left out

- Allocation and I/O failure paths, fsync and checkpoints: a write either happens or does not.
- Recovery and restart: the supersession notes and retraction queue are followed within one process lifetime only.
- Expiry: outside `Traversal` and the log frames a record lives until it is deleted.
- Consolidation inside truth-maintenance runs: a merge is one uninterrupted operation with its own exact condition, and is not a step of `TruthMaintenance`.
- Conflict detection between derived facts, conclusion text and confidence of stored records.
- The lexical, semantic, time-of-use and HNSW indexes, and scoring; a search is its list of candidates with scores.
- Retraction.Store.DerivationStands: judges a premise by its own record; the notes of a merge are followed in `Merging.DerivationStands`, expiry in neither.
- Traversal.Traverse: reads one unchanging store; the code releases its locks between levels.
- Selection.Page: cuts pages from one candidate list; the widening of a ranked fetch between pages is not modelled.
- Selection.Sort: stands for the C library's sort, of which only order and contents are used. Scores are reals, so a NaN score is not modelled.
- Inference.InferRun: confidence is a real number, without rounding.
- Hash functions are arbitrary functions, and masks are wrap-around modulo the capacity; the kind table's buckets are one chain.
- Tenants.Store.AppendAndHash: authentication is on throughout; usage is not recomputed when the last token is revoked or the first one added.
- Tenants.Store.Update: the patch covers payload, tags and weights; vectors, an adopted fact and field validation are not part of it.
- Connection.Session: the handler's response is an arbitrary function of its turn and line; idle reaping is the session ending early.
- CodecIO.Encode: an enumeration value outside the known rules and object kinds cannot be written down in the model, so its refusal is not modelled.
- Replication covers one primary lifetime; authentication and encryption of the stream are not part of it.
- Working memory, JSON, dispatch, configuration and the command line tools.
