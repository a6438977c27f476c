# interview-matcher, modelled in Dafny

The interview matcher pairs candidates with panels of interviewers. Every participant
declares the time slots they can attend. The matcher builds a layered flow network over
six layers:

- the source;
- one node per interviewer;
- one "slot-filter" node per slot;
- one node per slot;
- one node per candidate;
- the sink.

It writes fixed capacities on the edges, then prunes the slots that too few interviewers
declared. A Ford–Fulkerson style search finds augmenting paths until none is left. Every
slot whose filter is full becomes a record `{slot, interviewers, candidate}`.

Around this engine sit three smaller pieces:

- the entity keys (`type_id`);
- the validator of participant files, which reports numbered error codes;
- the converter of Doodle polls into participants, with the renaming of its output keys.

The project models each of these, one Dafny module per source file:

| module | source file | form |
|---|---|---|
| `Results` | `src/errors.js` | `Option`/`Result`, thrown errors and their codes |
| `Entities` | `src/entities.js` | functions |
| `Lexicographic` | the string order of `Array.prototype.sort` | functions, lemmas |
| `Matcher` | `src/matcher.js` | methods on `array2<int>` for the in-place capacity writes, functions for the rest |
| `FlowNetwork` | the flow algebra of `src/FordFulkerson/FordFulkerson.js` | functions, lemmas |
| `Ordering` | the sort helpers' filter, sort and map chains | functions, lemmas |
| `SearchNodes` | `src/FordFulkerson/SearchNode.js` | datatype, functions |
| `FordFulkerson` | `src/FordFulkerson/FordFulkerson.js` | class `FordFulkerson` with its `flows` array |
| `JsValues` | the JSON values the validators read | datatype, functions |
| `FileUtils`, `FileReader` | `src/fileUtils.js`, `src/fileReader.js` | a loop method proved against a function |
| `Doodler` | `src/doodler.js` | functions; class `InterviewCounts` for the in-place key renaming |

What is proved, in short:

- The network has the layout and the capacities the matcher promises.
- Pruning zeroes exactly the under-declared slot-filters, and pruning again changes nothing.
- Every augmentation keeps the flow antisymmetric, within capacity and conserved.
- The search returns a simple admissible path to the sink, or proves the sink unreachable.
- `calcMaxFlow` terminates, with no admissible path left from any interviewer with source residual.
- On a network the matcher built, every record has `interviewers_per_slot` distinct interviewers and a candidate, all of whom declared the record's slot. Records come out in ascending slot order, and decoding never throws.
- The validator reports the first failing check of the first failing subject, and accepts exactly the files whose ids are well formed and pairwise distinct.
- The poll converter and the entity splitter round-trip the keys they build.

## Model

| member | source | states |
|---|---|---|
| Results.Code | src/errors.js:4-73 | every error kind has its code from the frozen error table, between 1 and 17 |
| Entities.Includes | src/entities.js:16 | `hash.includes(type)` holds exactly when `type` occurs at some position of `hash` |
| Entities.DehashEntity | src/entities.js:15-20 | throws "Invalid hash type" exactly when the type occurs nowhere in the hash (a substring test, not a prefix test); otherwise the result is the hash with its first `type.length + 1` characters dropped, or "" when the hash is shorter |
| Entities.HashEntity | src/entities.js:7 | the key is the type, an underscore and the id, in that order; its partner `Entities.HashRoundTrip` undoes it |
| Entities.HashRoundTrip | src/entities.js:7-20 | dehashing a key with the type it was hashed with gives back the id |
| Entities.HashInjective | src/entities.js:7-20 | for one type, equal keys come from equal ids |
| Entities.DehashChecksSubstringOnly | src/entities.js:16-19 | a key of another type containing the type name passes the check and is cut at the wrong place |
| Entities.KeysOfDifferentTypesCollide | src/entities.js:7 | `slot` + `filter_x` and `slot_filter` + `x` give the same key |
| Lexicographic.LessIrreflexive | src/matcher.js:25 | the default string order is irreflexive |
| Lexicographic.LessTransitive | src/matcher.js:25 | the default string order is transitive |
| Lexicographic.LessTotal | src/matcher.js:25 | any two different strings are ordered one way or the other |
| Lexicographic.Insert | src/matcher.js:21 | adding a slot to the sorted set keeps it strictly ascending, with exactly the old members plus the slot |
| Matcher.AddAll | src/matcher.js:21 | adding a participant's slots keeps the set strictly ascending and adds exactly those slots |
| Matcher.GetSlots | src/matcher.js:15-26 | the catalogue is strictly ascending, and a slot is in it exactly when some candidate or interviewer declared it |
| Matcher.AscendingUnique | src/matcher.js:25 | two strictly ascending lists with the same members are equal, so the sorted catalogue is determined by the set of declared slots |
| Matcher.Lookup | src/matcher.js:89 | reading the node map gives a value exactly when the key was assigned |
| Matcher.NodesMapLayout | src/matcher.js:40-73 | with distinct keys, the node map is the assignments in program order, one per node, `I + 2S + C + 2` in all |
| Matcher.EndpointIds | src/matcher.js:40-73 | the source is node 0 and the sink is node `I + 2S + C + 1` |
| Matcher.InterviewerId | src/matcher.js:44-48 | interviewer k is node `1 + k` |
| Matcher.SlotFilterId | src/matcher.js:51-55 | the filter of slot k is node `1 + I + k` |
| Matcher.SlotId | src/matcher.js:58-62 | slot k is node `1 + I + S + k` |
| Matcher.CandidateId | src/matcher.js:65-69 | candidate k is node `1 + I + 2S + k` |
| Matcher.Info | src/matcher.js:30-69 | the four id sets have one id per interviewer, filter, slot and candidate, and hold exactly the ids of their layer |
| Matcher.InfoLayout | src/matcher.js:30-69 | the four id sets partition the ids strictly between the source and the sink, and filter f's slot node is `f + S` |
| Matcher.BuildCapacitiesGraph | src/matcher.js:28-84 | returns the node map and id sets of the layout, and a fresh all-zero square matrix with one row per key |
| Matcher.PopulateCapacitiesGraph | src/matcher.js:86-116 | every entry holds its edge type's fixed capacity where the program writes one, and keeps its old value everywhere else |
| Matcher.SourceToInterviewers | src/matcher.js:88-90 | source to every interviewer is set to `max_interviews_per_interviewer`; nothing else changes |
| Matcher.InterviewersToSlotFilters | src/matcher.js:93-97 | an interviewer's edge to each filter of a slot they declared is set to 1; nothing else changes |
| Matcher.SlotFiltersToSlotsAndSink | src/matcher.js:100-103 | each filter gets 1 to its slot and `interviewers_per_slot - 1` to the sink; nothing else changes |
| Matcher.SlotsToCandidates | src/matcher.js:106-110 | each slot's edge to every candidate who declared it is set to 1; nothing else changes |
| Matcher.CandidatesToSink | src/matcher.js:113-115 | every candidate's edge to the sink is set to 1; nothing else changes |
| Matcher.Declarations | src/matcher.js:122-129 | a slot's declaration count is positive exactly when some interviewer declared it |
| Matcher.CountDeclarations | src/matcher.js:122-129 | the count table has exactly the declared slots as keys, each mapped to how often interviewers declared it |
| Matcher.CountSlots | src/matcher.js:123-128 | counting one interviewer's slots adds each slot's number of occurrences to the table |
| Matcher.ZeroColumn | src/matcher.js:135-137 | column f becomes all zero, and nothing else changes |
| Matcher.PruneSlot | src/matcher.js:131-139 | the filter column of a slot with fewer declarations than `interviewers_per_slot` is zeroed, and nothing else changes |
| Matcher.PruneCapacitiesGraph | src/matcher.js:118-140 | an entry becomes 0 exactly when its column is the filter of a declared slot with fewer declarations than `interviewers_per_slot`; every other entry keeps its value |
| Matcher.PruneTwice | src/matcher.js:131-139 | pruning twice leaves the same matrix as pruning once |
| Matcher.CompleteAmong | src/matcher.js:152-155 | a filter is complete exactly when its sink flow plus its slot flow equals `interviewers_per_slot`; the complete filters stay in ascending id order |
| Matcher.WithFlowInto | src/matcher.js:178-184 | a record's interviewers are exactly the interviewer nodes with flow 1 into the filter, in ascending id order |
| Matcher.WithFlowFrom | src/matcher.js:170-174 | the candidate nodes taken are exactly those with flow 1 out of the slot |
| Matcher.LastWithFlow | src/matcher.js:168-175 | no candidate exactly when no candidate has flow 1 out of the slot; otherwise the candidate found has flow 1 |
| Matcher.LastWithFlowIsLast | src/matcher.js:170-174 | the candidate kept is the last one, in id order, with flow 1 out of the slot |
| Matcher.Decode | src/matcher.js:146-148 | decoding a node id fails only when the reverse map lacks the id or the name does not contain the type |
| Matcher.DecodeAll | src/matcher.js:159-184 | a list of ids decodes exactly when each id does, one name per id and in order; otherwise it fails with the first id's error |
| Matcher.BuildMatchesFromFlows | src/matcher.js:142-187 | one record per complete filter, in filter order, made of the filter's slot, the interviewers with flow into it and the last candidate with flow out of its slot; a failure is one of the two decoding errors |
| Matcher.RecordsInOrder | src/matcher.js:159-186 | records built from complete filters in ascending order come out in strictly ascending slot order |
| Matcher.MatchSound | src/matcher.js:142-187 | on a valid flow over the built network, decoding succeeds, and every record has `interviewers_per_slot` distinct interviewers and one candidate, all of whom declared its slot |
| Matcher.BuildNetwork | src/matcher.js:5-8 | the network `match` hands to the solver: the catalogue, the layout and non-negative capacities equal to the populated and pruned values |
| Matcher.Match | src/matcher.js:4-13 | with the search node of Findings row 1 (the `(id, prev)` constructor), `match` never throws on distinct keys; its records are sound and in strictly ascending slot order, and they are the decoding of the flow the search leaves, a flow over the built capacities that keeps the flow invariants and leaves no admissible path from an interviewer with work left to the sink |
| FlowNetwork.AugmentedEntry | src/FordFulkerson/FordFulkerson.js:42-45 | after augmenting along a path, each entry has moved by its forward uses minus its backward uses |
| FlowNetwork.AugmentedRowSum | src/FordFulkerson/FordFulkerson.js:42-45 | a node's net outflow moves by the number of path edges leaving it minus those entering it |
| FlowNetwork.WalkBalance | src/FordFulkerson/FordFulkerson.js:42-45 | along a path, every node other than its two ends is left as often as it is entered |
| FlowNetwork.AugmentKeepsBounds | src/FordFulkerson/FordFulkerson.js:42-45 | augmenting a path of positive residuals without repeated edges keeps the flow antisymmetric and within capacity |
| FlowNetwork.AugmentConserves | src/FordFulkerson/FordFulkerson.js:42-45 | augmenting a source-to-sink path keeps inflow equal to outflow at every other node |
| FlowNetwork.AugmentPreservesFlow | src/FordFulkerson/FordFulkerson.js:36-46 | one augmentation keeps all three flow invariants and raises the source's outflow by exactly 1 |
| FlowNetwork.OutflowBounded | src/FordFulkerson/FordFulkerson.js:36-46 | a node's outflow never exceeds its total capacity, which bounds the number of augmentations |
| FlowNetwork.ZeroFlowInvariants | src/FordFulkerson/FordFulkerson.js:25 | the all-zero flow meets the flow invariants |
| FlowNetwork.ClosedNodeCarriesNoFlow | src/matcher.js:131-139 | under the flow invariants, an inner node whose incoming capacities are all zero (a pruned filter) carries no flow out |
| FlowNetwork.SimpleHasNoRepeatedEdge | src/FordFulkerson/FordFulkerson.js:93-94 | a path that repeats no node repeats no edge |
| Ordering.Insert | src/FordFulkerson/FordFulkerson.js:163 | inserting into a sorted list keeps it sorted, by count then id, and adds exactly that entry |
| Ordering.Sort | src/FordFulkerson/FordFulkerson.js:163 | the result is sorted by count then id, and is a permutation of the input |
| Ordering.SortedUnique | src/FordFulkerson/FordFulkerson.js:163 | two sorted permutations of the same entries with distinct ids are equal, so the order is fully determined |
| Ordering.Positive | src/FordFulkerson/FordFulkerson.js:162 | keeps exactly the entries with a positive count, as a sub-multiset |
| Ordering.Ranked | src/FordFulkerson/FordFulkerson.js:161-164 | the ids with a positive count, each once, ordered by count (ascending or descending) with ties by ascending id |
| SearchNodes.Ids | src/FordFulkerson/SearchNode.js:15-17 | the parent chain ends at the node itself |
| SearchNodes.Construct | src/FordFulkerson/SearchNode.js:2-18 | the `(id, prev)` constructor: a missing id throws "Missing node 'id'", a number as prev throws the type error, and otherwise it builds a root of depth 0 or a child one deeper than its parent, keeping depths consistent |
| SearchNodes.ConstructAsWritten | src/FordFulkerson/SearchNode.js:2-18 | the `(id, depth, prev)` constructor: a missing id or depth throws its message; it succeeds exactly when id and depth are present and prev is not a number, and stores id, depth and the parent node unchanged |
| SearchNodes.AsWrittenRootThrows | src/FordFulkerson/SearchNode.js:7-9 | `new SearchNode(start)` without a depth throws "Missing node 'depth'" |
| SearchNodes.AsWrittenChildLosesParent | src/FordFulkerson/SearchNode.js:2-17 | `new SearchNode(i, node)` stores the parent as the depth and loses the parent link |
| SearchNodes.ConstructMatchesTests | src/FordFulkerson/SearchNode.js:2-18 | the constructor's expected behaviour: root at depth 0, child at depth 1 keeping its parent, id 0 accepted, a missing id and a numeric prev refused |
| FordFulkerson.BuildIncrementalPath | src/FordFulkerson/FordFulkerson.js:210-223 | one edge per parent link, root first, each edge joining consecutive nodes of the chain |
| FordFulkerson.IncrementalPathShape | src/FordFulkerson/FordFulkerson.js:210-223 | the path runs from the root to the end node and visits exactly the chain's nodes |
| FordFulkerson.FordFulkerson.constructor | src/FordFulkerson/FordFulkerson.js:14-29 | keeps the matrix and the id sets, with an all-zero square flow matrix |
| FordFulkerson.FordFulkerson.Create | src/FordFulkerson/FordFulkerson.js:14-29 | a missing matrix throws "Missing field 'capacities'" first, then a missing `graph_info` throws "Missing field 'graph_info'"; otherwise the flows are all zero |
| FordFulkerson.FordFulkerson.SortInterviewersByAscendingWork | src/FordFulkerson/FordFulkerson.js:154-165 | exactly the interviewers with positive source residual, each once, in descending residual order with ties by ascending id |
| FordFulkerson.FordFulkerson.SortSlotsByDescendingNumInterviewers | src/FordFulkerson/FordFulkerson.js:171-185 | exactly the filters whose sink plus slot residual is positive, each once, in ascending residual order with ties by ascending id |
| FordFulkerson.FordFulkerson.SortCandidatesByAscendingAssignedSlots | src/FordFulkerson/FordFulkerson.js:192-203 | the candidates without sink flow 1, in reverse order, then those with it, in order; every candidate appears |
| FordFulkerson.FordFulkerson.OrderAdmitExact | src/FordFulkerson/FordFulkerson.js:96-143 | a neighbour is queued exactly when it has positive residual and passes its node type's filter, including the skipped sink edge of a filter whose slot edge carries no flow |
| FordFulkerson.FordFulkerson.EnqueueNeighbours | src/FordFulkerson/FordFulkerson.js:96-143 | appends one child per admitted neighbour, in the node type's order |
| FordFulkerson.FordFulkerson.EnqueueAdmitted | src/FordFulkerson/FordFulkerson.js:98-103 | appends one child per admitted neighbour of the given order, in that order |
| FordFulkerson.FordFulkerson.Visit | src/FordFulkerson/FordFulkerson.js:86-144 | one step of the queue loop keeps the search invariant and either shrinks the unvisited set or shortens the queue |
| FordFulkerson.FordFulkerson.SearchIncrementalPath | src/FordFulkerson/FordFulkerson.js:80-148 | a path found runs from the start to the sink, is simple, stays within the matrix and uses only admissible edges; no path means the sink cannot be reached by admissible edges |
| FordFulkerson.FordFulkerson.EmptyQueueBlocksSink | src/FordFulkerson/FordFulkerson.js:86-147 | once the queue is empty and the sink was never dequeued, no admissible walk reaches the sink |
| FordFulkerson.FordFulkerson.ClosedSetBlocksSink | src/FordFulkerson/FordFulkerson.js:93-94 | a walk from inside a visited set closed under admissible edges never ends at the sink |
| FordFulkerson.FordFulkerson.SinkPath | src/FordFulkerson/FordFulkerson.js:89-90 | the path rebuilt from a dequeued sink node is a simple admissible path from the start |
| FordFulkerson.FordFulkerson.SearchPathFromInterviewer | src/FordFulkerson/FordFulkerson.js:55-73 | a path returned begins with a source-to-interviewer edge and is augmenting; null means no interviewer with source residual reaches the sink |
| FordFulkerson.FordFulkerson.TryInterviewers | src/FordFulkerson/FordFulkerson.js:58-70 | tries a list holding every interviewer with source residual, in order: the first path found is augmenting, and when none is found no such interviewer reaches the sink |
| FordFulkerson.FordFulkerson.Augment | src/FordFulkerson/FordFulkerson.js:42-45 | the flow matrix becomes the old one augmented along the path |
| FordFulkerson.FordFulkerson.PushEdge | src/FordFulkerson/FordFulkerson.js:43-44 | `++flows[from][to]` and `--flows[to][from]`, nothing else |
| FordFulkerson.FordFulkerson.CalcMaxFlow | src/FordFulkerson/FordFulkerson.js:35-49 | terminates and returns `flows`, with the flow invariants kept, the source outflow never lower, and no admissible path left from any interviewer with source residual |
| JsValues.Prop | src/fileUtils.js:43 | reading a property gives an object's own field, or undefined |
| JsValues.NatStrValue | src/fileUtils.js:46 | the decimal numeral of n denotes n |
| JsValues.NatStrInjective | src/fileUtils.js:46 | different numbers have different numerals |
| JsValues.ObjectsString | src/doodler.js:78 | the string form of an array of objects depends only on the number of items |
| FileUtils.SlotMessageNamesSubject | src/fileUtils.js:85 | the corrected slot message determines both the subject number and the slot number |
| FileUtils.SlotMessageAsWrittenLosesSubject | src/fileUtils.js:85 | as written, the message for subject 2, slot 1 is the message for subject 1, slot 1 |
| FileUtils.FirstNonString | src/fileUtils.js:81-88 | no position exactly when every slot is a string; otherwise the first slot that is not |
| FileUtils.FaultPasses | src/fileUtils.js:43-88 | a subject passes exactly when it is well formed with an unseen id; an empty id is code 4; a repeat is code 9 only after the shape checks pass |
| FileUtils.ScanFirstFault | src/fileUtils.js:42-89 | scanning in order finds no failure exactly when all subjects pass; otherwise it reports the first failing subject's first failure |
| FileUtils.Validate | src/fileUtils.js:32-92 | a non-array is refused with code 3; an array is accepted, with `true`, exactly when the ordered scan finds no failure; a bad slot is reported with the as-written message of Findings row 2; partners `FileUtils.ValidateAccepts` and `FileUtils.ValidateRejects` |
| FileUtils.RenderedSlotErrorsCollide | src/fileUtils.js:85 | as thrown by the validation, a bad first slot of subject 2 is the same error as one of subject 1 |
| FileUtils.ValidateAccepts | src/fileUtils.js:32-92 | the file is accepted, with `true`, exactly when it is an array of well-formed subjects with pairwise distinct ids |
| FileUtils.PassesIffDistinct | src/fileUtils.js:40-79 | all subjects pass exactly when each is well formed and their ids are pairwise distinct |
| FileUtils.ValidateRejects | src/fileUtils.js:32-89 | a non-array is code 3; otherwise the error is the first failure of the first subject that fails |
| FileUtils.FirstFaultUnique | src/fileUtils.js:42 | only one subject is the first to fail, and its failure is the one reported |
| FileUtils.ValidateFileData | src/fileUtils.js:32-92 | the loop over subjects and their slots returns what `FileUtils.Validate` specifies, including the as-written slot message of Findings row 2 |
| FileReader.ValidateFileData | src/fileReader.js:19-79 | the reader's copy returns the same result as the shared validation, with the same as-written slot message (src/fileReader.js:72), `true` only for an array |
| FileReader.IdFailures | src/fileReader.js:30-41 | an accepted subject, a missing id (code 4) and a non-string id (code 5) |
| FileReader.SlotsFailures | src/fileReader.js:42-59 | missing slots (6), non-array slots (7) and empty slots (8) |
| FileReader.RepeatAndSlotFailures | src/fileReader.js:60-75 | a repeated id (9) and a non-string slot (10) with its position |
| FileReader.CheckOrder | src/fileReader.js:29-75 | a repeated id is reported only after the repeating subject's shape checks pass, and an earlier subject's failure wins |
| FileReader.RefusesNonArray | src/fileReader.js:20-25 | a non-array file is refused with code 3 |
| Doodler.SlotsOf | src/doodler.js:50 | one `start-end` slot per option, in option order; a null or undefined option throws |
| Doodler.PickedIndicesSpec | src/doodler.js:57-61 | the picked indices are exactly the truthy preferences, ascending and in range |
| Doodler.PickedSlots | src/doodler.js:57-61 | a participant's slots are the slots at the picked indices, in index order |
| Doodler.ParticipantOf | src/doodler.js:51-64 | converts when the participant is readable and its preferences are an array, with id `name_id` and the picked slots; otherwise it throws the matching TypeError |
| Doodler.ParticipantsOf | src/doodler.js:51-64 | converts all participants, in order, exactly when each one converts |
| Doodler.FormatCheck | src/doodler.js:28-48 | no fault exactly when the poll is readable and both fields are arrays; the four checks run in source order |
| Doodler.RenderFormat | src/doodler.js:28-48 | each format fault is thrown with code 15 and its own message; an unreadable poll throws a TypeError |
| Doodler.ConvertDoodleData | src/doodler.js:27-70 | a poll failing a format check throws that check's error; a converted poll has one slot per option and one participant per poll participant; partners `Doodler.ConvertAccepts` and `Doodler.ConvertedPoll` |
| Doodler.ConvertAccepts | src/doodler.js:27-70 | conversion succeeds exactly on convertible polls, and a poll failing a format check throws that check's error |
| Doodler.ConvertedPoll | src/doodler.js:50-64 | one slot per option in order, one participant per poll participant in order with id `name_id`, and slots from the truthy preferences |
| Doodler.FormatChecks | src/doodler.js:28-48 | the four format errors, one per malformed poll, and none for a well-formed one |
| Doodler.SlotsMatchingAsWritten | src/doodler.js:78 | the as-written half of Findings row 3: throws exactly when a poll or its options are nullish; polls with equal options match; partner `Doodler.AsWrittenComparesCounts` shows that only the counts are compared |
| Doodler.AsWrittenComparesCounts | src/doodler.js:78 | as written, two polls whose options are objects match exactly when they have equally many options |
| Doodler.AsWrittenMatchesDifferentSlots | src/doodler.js:78 | as written, polls offering slots 1-2 and 3-4 are reported as matching |
| Doodler.DifferentSlotsOffered | src/doodler.js:50 | those two polls do offer different slots |
| Doodler.SlotsMatching | src/doodler.js:78 | the corrected half of Findings row 3: throws exactly when a poll or its options are nullish; otherwise the polls match exactly when their options are equal, and then they also match as written |
| Doodler.ConvertDoodlesData | src/doodler.js:10-19 | with the as-written comparison of Findings row 3: a nullish poll or option list throws the comparison's error; options that do not print alike throw code 16; options that print alike give the candidates' and the interviewers' participants exactly when both polls convert, and otherwise the first conversion error |
| Doodler.Both | src/doodler.js:15-18 | the result object is built exactly when both polls convert, the candidates' poll first, and holds the two participant lists |
| Doodler.AsWrittenConvertsDifferentPolls | src/doodler.js:10-19 | as written, polls offering slots 1-2 and 3-4 with no participants are converted, while the corrected conversion throws code 16 |
| Doodler.ConvertDoodlesDataCorrected | src/doodler.js:10-19 | the conversion with the corrected comparison: a nullish poll or option list throws the comparison's error; different options throw code 16; equal options give both participant lists exactly when both polls convert, and otherwise the first conversion error |
| Doodler.ConvertedShareSlots | src/doodler.js:10-19 | after the corrected conversion succeeds, both polls have the same slots, and the result holds the candidates' and the interviewers' participants |
| Doodler.LastIndexOf | src/doodler.js:109 | -1 exactly when the character is absent; otherwise its last position |
| Doodler.ConvertToDoodleEntity | src/doodler.js:108-117 | succeeds exactly when there is an underscore; the key is name + "_" + id with no underscore in the id; otherwise it throws "Missing entity separator" |
| Doodler.EntityRoundTrip | src/doodler.js:108-117 | splitting `name_id` for an id without underscores gives back the name and the id |
| Doodler.ParticipantKeyRoundTrip | src/doodler.js:53 | a participant key built by the converter splits back into its name and id |
| Doodler.RenameFrom | src/doodler.js:81-84 | the renaming of the remaining keys fails only with "Missing entity separator"; partners `Doodler.RenameError` and `Doodler.RenameMovesCounts` |
| Doodler.RenameError | src/doodler.js:81-84 | the renaming throws exactly when some key has no underscore, with "Missing entity separator" |
| Doodler.RenameMovesCounts | src/doodler.js:81-84 | with fresh names, each key is replaced by its name with the same count, and every other entry is untouched |
| Doodler.SharedNameKeepsLater | src/doodler.js:81-84 | two interviewers with the same name merge into one entry holding the later count |
| Doodler.InterviewCounts.RenameToNames | src/doodler.js:81-84 | the in-place renaming over the object's keys leaves the counts and the error that the renaming function specifies |

## Left out

- The output mapping of `doodlifyOutput` (src/doodler.js:86-97) is not modelled. It converts slot timestamps with `convertDoodleDate`, which uses `Date` (src/doodler.js:124-128).
- The file and console I/O of src/fileUtils.js and src/fileReader.js (`readInputFile`, `writeJSONtoFile`), src/printer.js and src/utils.js are not part of this model.
- The HTTP fetching in src/apiFetcher.js is not part of this model.
- The command-line orchestration in src/main.js is not part of this model.
- The load balancer functions that the matcher tests mention (`improveMatching` and its helpers) are not in src/matcher.js and are not modelled.
- The sort-helper tests use other helper names and opposite orderings; the model follows src/FordFulkerson/FordFulkerson.js:154-203.
- Matcher.Match: the solver's result is not claimed to be a maximum flow. The node-type filters of the search (src/FordFulkerson/FordFulkerson.js:104-122) restrict the residual graph, so only the soundness of the records is proved.
- Matcher.Match: requires distinct node keys. Keys of different types can collide (`Entities.KeysOfDifferentTypesCollide`), and the source then sizes the matrix by the smaller key count.
- Matcher.Match: requires `interviewers_per_slot >= 1` and `max_interviews_per_interviewer >= 0`, so that every capacity is non-negative.
- Matcher.BuildNetwork: same requirements as Matcher.Match.
- Numbers are unbounded integers. Floating-point values, `NaN` and numeric strings in ids or preferences are not modelled.
- The default string sort is modelled as lexicographic order on characters. This is the UTF-16 code-unit order JavaScript uses for strings within the Basic Multilingual Plane.
- `graph_info` sets are ascending sequences, and the key order of `Object.entries` is the insertion order. No node key is an integer-like string in the modelled graphs.
- Doodler.InterviewCounts.RenameToNames takes the order of `Object.keys` as its `keys` parameter, rather than computing it.
- Doodler.InterviewCounts.RenameToNames: requires the keys to be distinct and to be exactly the object's keys.
- The texts of the TypeErrors that JavaScript throws are approximated by `JsValues.ReadError`. Inherited and prototype properties are not modelled.
- The destructuring of a nullish option in src/doodler.js:50 is given the TypeError of reading `start`.
- FordFulkerson.FordFulkerson.Create takes the matrix as an `array2<int>`, so a matrix that is present is always square and non-null.

## Findings

| source | as written | input that shows it | evidently intended | confidence | as-written member | corrected member |
|---|---|---|---|---|---|---|
| src/FordFulkerson/SearchNode.js:2-9 | the constructor takes `(id, depth, prev)` and throws when `depth` is missing, while the search calls `new SearchNode(start)` and `new SearchNode(i, node)` | `new SearchNode(1)` throws "Missing node 'depth'", so `searchIncrementalPath` throws on every call | a constructor `(id, prev = null)` with depth derived from the parent, as the constructor's tests expect | high, not executed | SearchNodes.AsWrittenRootThrows | SearchNodes.Construct |
| src/fileUtils.js:85 | the slot callback's parameter `index` shadows the subject's, so the message numbers the subject by the slot's position (same at src/fileReader.js:72) | subject 2 whose first slot is `1` is reported as "subject num. 1, slot num. 1" | the subject number from the outer loop | high, not executed | FileUtils.SlotMessageAsWrittenLosesSubject | FileUtils.SlotMessageNamesSubject |
| src/doodler.js:78 | `options.toString()` of an array of objects is "[object Object]" repeated, so only option counts are compared | options `[{start: 1, end: 2}]` and `[{start: 3, end: 4}]` are reported as matching | the two polls offer the same slots | high, not executed | Doodler.AsWrittenConvertsDifferentPolls | Doodler.ConvertedShareSlots |
