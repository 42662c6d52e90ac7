# Event consolidation service, modelled in Dafny

This project models the core of a NestJS calendar service, `EventsService`. Users are invited to events. The model covers two parts of the service:

- **Overlap consolidation** (`mergeAllOverlappingEvents`). The service takes a user's events in start order and sweeps over them once. Each event is compared with the last member of the open group. An event that overlaps that member joins the group. Otherwise the group is closed:
  - a group of two or more is replaced by one synthesized event (`mergeEventGroup`), and its members are deleted;
  - a singleton is passed through unchanged.
- **Creation checks** (`create`). A new event must start strictly before it ends, and every requested invitee must be found.

The project is split into modules:

- `wrappers.dfy`: `Option` and `Result`.
- `entities.dfy`: the event record and the status enum, with three predicates:
  - `WellFormed` means the event starts before it ends;
  - `SortedByStart` means the events are in start order;
  - `NoDup` means the sequence has no repeated element.
- `strings.dfy`: `Array.prototype.join`, proved equal to ECMAScript's left-to-right accumulation (`JoinMatchesAccumulation`).
- `event_merge.dfy`: the overlap test, the reductions used by `mergeEventGroup`, and `MergeEventGroup` itself, with lemmas on every field of the merged event.
- `overlap_groups.dfy`: `Groups`, the grouping the sweep forms, defined recursively. It is characterised as the unique cut into chained, separated groups.
- `events_service.dfy`: the service itself, with lemmas on partition, ids, ordering and well-formedness:
  - `Create`;
  - `MergeSweep`, the imperative sweep: a `for` loop with invariants, proved equal to the specification functions `Outputs` and `Superseded` of `Groups`;
  - `MergeAllOverlappingEvents`, the full operation.
- `scenarios.dfy`: the merge cases of the repository's unit tests as concrete instances proved as lemmas, and the case where the returned events still overlap.

How the merge step is modelled: closing a group produces an *emission*. The emission is either the singleton's member (`PassThrough`) or the group with the id its merged row receives (`Merged`). `Realize` turns an emission into the event that is returned. Merged rows take the ids `idBase`, `idBase + 1`, … in the order the groups close, because the store hands each merged row a fresh id when it is saved.

## Model

| member | source | states |
|---|---|---|
| EventMerge.Overlap | src/events/events.service.ts:123-125 | two events overlap when each ends strictly after the other starts; `OverlapIffSharedInstant` ties this to a shared instant of the two spans |
| EventMerge.OverlapIffSharedInstant | src/events/events.service.ts:123-125 | two events that each start before they end overlap exactly when some instant lies in both half-open spans |
| EventMerge.TouchingDoNotOverlap | src/events/events.service.ts:123-125 | when one event ends exactly where the other starts, neither overlaps the other, because both comparisons are strict |
| EventMerge.Priority | src/events/events.service.ts:146-150 | the status ranks: IN_PROGRESS 3, TODO 2, COMPLETED 1, all distinct; `MergedStatusCases` gives the merged status they select |
| EventMerge.EarliestStart | src/events/events.service.ts:128-131 | the start-time reduce is at most its seed and at most every member's start, and it equals the seed or some member's start |
| EventMerge.LatestEnd | src/events/events.service.ts:133-136 | the end-time reduce is at least its seed and at least every member's end, and it equals the seed or some member's end |
| EventMerge.HighestStatus | src/events/events.service.ts:152-157 | the status reduce never lowers the seed's priority, reaches every member's priority, and is the seed or some member's status |
| EventMerge.Titles | src/events/events.service.ts:139 | the member titles in group order; `MergedTitle` gives their join |
| EventMerge.Truthy | src/events/events.service.ts:142 | a description the filter keeps: present and not the empty string; `MergedDescriptionSkipsEmpty` shows the others add nothing |
| EventMerge.Descriptions | src/events/events.service.ts:140-142 | the truthiness filter keeps at most one segment per member and never an empty one |
| EventMerge.AddInvitees | src/events/events.service.ts:162-164 | setting ids as keys of an insertion-ordered map: the keys already present keep their order as a prefix; the result holds exactly the old keys and the new ids; the result is duplicate-free when the old keys are |
| EventMerge.CollectInvitees | src/events/events.service.ts:159-165 | the keys after every member's invitees are set are exactly the seed's keys and every member's invitees, with no duplicates |
| EventMerge.MergeEventGroup | src/events/events.service.ts:127-177 | the merged event has the given id; its start is the least member start and its end the greatest member end, each attained by some member; its status is a member's status of highest priority; its invitees are every member's invitees, each once, and nothing else |
| EventMerge.MergedStartIsFirst | src/events/events.service.ts:128-131 | for a group in start order, the merged start is the first member's start |
| EventMerge.MergedIsWellFormed | src/events/events.service.ts:128-136 | if every member starts before it ends, so does the merged event |
| EventMerge.MergedStatusCases | src/events/events.service.ts:145-157 | IN_PROGRESS results exactly when some member is IN_PROGRESS; TODO results exactly when some member is TODO and none is IN_PROGRESS; COMPLETED results exactly when all members are COMPLETED |
| EventMerge.MergedTitle | src/events/events.service.ts:139 | a singleton keeps its title; cutting the group anywhere, the merged title is the front part's merged title, then " + ", then the back part's |
| EventMerge.DescriptionsConcat | src/events/events.service.ts:140-142 | filtering the descriptions of two runs of members one after the other gives the two filtered lists one after the other |
| EventMerge.MergedDescriptionSkipsEmpty | src/events/events.service.ts:140-143 | a member whose description is absent or empty changes nothing in the merged description |
| EventMerge.MergedDescriptionExtremes | src/events/events.service.ts:140-143 | when every description is non-empty, the merged description is all of them in order between " \| "; when none is, it is the empty string |
| EventMerge.AllTruthyAllDescriptions | src/events/events.service.ts:140-142 | when every member's description is non-empty, the filter keeps every description, in order |
| EventMerge.NoTruthyNoDescriptions | src/events/events.service.ts:140-142 | when no member's description is non-empty, the filter keeps nothing |
| Strings.Join | src/events/events.service.ts:139-143 | the parts in order with the separator between adjacent parts, "" for no parts; `JoinMatchesAccumulation` proves it equal to ECMAScript's accumulation |
| Strings.JoinAfterIsAppend | src/events/events.service.ts:139 | continuing the join accumulation from a string appends the separator and the join of the remaining parts |
| Strings.JoinMatchesAccumulation | src/events/events.service.ts:139 | the recursive join equals the left-to-right accumulation that ECMAScript defines for `join` |
| Strings.JoinConcat | src/events/events.service.ts:139 | joining two non-empty runs of parts puts exactly one separator between their joins |
| OverlapGroups.Groups | src/events/events.service.ts:84-104 | the groups are non-empty; laid end to end they give back the input in order; there are at most as many groups as events, and at least one for non-empty input |
| OverlapGroups.ExtendLastGroup | src/events/events.service.ts:91-92 | appending an event that overlaps the last member of the last group keeps the groups chained and separated |
| OverlapGroups.OpenGroup | src/events/events.service.ts:93-103 | starting a new group with an event that does not overlap the last member keeps the groups chained and separated |
| OverlapGroups.GroupsAreChainPartition | src/events/events.service.ts:84-104 | within each group every event overlaps the one before it, and the first event of each group does not overlap the last event of the group before |
| OverlapGroups.DropSingletonGroup | src/events/events.service.ts:93-103 | removing a trailing singleton group leaves a chained, separated cut of the shorter input |
| OverlapGroups.DropFromLastGroup | src/events/events.service.ts:91-92 | removing the last member of a longer last group leaves a chained, separated cut of the shorter input |
| OverlapGroups.ChainPartitionIsGroups | src/events/events.service.ts:84-104 | any cut of the input into chained, separated, non-empty groups is exactly the sweep's grouping |
| OverlapGroups.LastGroupLonger | src/events/events.service.ts:91-92 | a chained, separated cut whose last group has two or more members is the sweep's grouping: the last event was pushed onto the open group |
| EventsService.FindByIds | src/events/events.service.ts:29 | the stored users whose id is requested, each once; `FoundAllRequested` states when their number matches the request |
| EventsService.FoundAllRequested | src/events/events.service.ts:29-31 | the store finds at most as many users as were requested, and exactly as many when the requested ids are distinct and all stored |
| EventsService.Create | src/events/events.service.ts:17-42 | creation succeeds exactly when start < end, the invitee ids are distinct and all are stored; start ≥ end fails with the "Start time must be before end time" bad request, checked first; a missing or repeated invitee fails with "One or more invitees not found"; a created event carries the request's fields and invitees, starts before it ends and lists each invitee once |
| EventsService.MergeCount | src/events/events.service.ts:95-97 | the number of groups that are merged, and so of fresh ids taken, is at most the number of groups |
| EventsService.Emit | src/events/events.service.ts:95-101 | a group of two or more is merged under the next fresh id, a singleton passes its only member through; `SingleGroupOutputs` and `OutputRepresentsGroup` state the outcome |
| EventsService.Realize | src/events/events.service.ts:96-100 | the event a closed group contributes: the merge of its members or the member itself; `OutputAt` ties each returned event to it |
| EventsService.Superseded | src/events/events.service.ts:98 | the members of every group of two or more, in order: the events deleted; `SupersededKeptPartition` proves that with the passed-through members they are exactly the input |
| EventsService.Kept | src/events/events.service.ts:100 | the members of the singleton groups, in order: the events passed through; `OutputsAreKeptOrMerged` proves each is returned |
| EventsService.Outputs | src/events/events.service.ts:82-113 | the sweep returns one event per group |
| EventsService.CloseGroup | src/events/events.service.ts:95-101 | closing one more group appends exactly what that group emits; its members join the deletions only when it has two or more, and the id counter advances only then |
| EventsService.GroupsStep | src/events/events.service.ts:86-103 | one iteration of the loop turns the grouping of the events seen so far into the grouping of one more event: extending the open group on overlap, otherwise closing it and opening a new one |
| EventsService.CloseCurrentGroup | src/events/events.service.ts:95-101 | closing the open group turns the returned and deleted events and the next id of the closed groups into those of one more closed group |
| EventsService.MergeSweep | src/events/events.service.ts:82-113 | the loop returns exactly the events of the sweep's groups, and deletes exactly their superseded members, in order |
| EventsService.MergeAllOverlappingEvents | src/events/events.service.ts:62-121 | an unknown user fails with "User with ID … not found"; otherwise the result is the sweep's returned events; remove is called, with the superseded members, exactly when there are any; with at most one event the input comes back unchanged and nothing is removed |
| EventsService.FewEventsPassThrough | src/events/events.service.ts:78-80 | with at most one event, the sweep's specification returns the input and deletes nothing |
| EventsService.SingleGroupOutputs | src/events/events.service.ts:106-113 | a single group yields one event, and its members are deleted only when it has two or more |
| EventsService.EmissionAt | src/events/events.service.ts:86-113 | the k-th emission is what closing the k-th group produces, under the id that counts the merged groups before it |
| EventsService.OutputAt | src/events/events.service.ts:86-113 | the k-th returned event is the realization of the k-th group's emission |
| EventsService.SupersededKeptPartition | src/events/events.service.ts:95-101 | the input events, counted with multiplicity, are exactly the deleted events plus the passed-through events |
| EventsService.OutputsAreKeptOrMerged | src/events/events.service.ts:95-101 | every passed-through event is returned, and every returned event is either passed through or has a fresh id |
| EventsService.MergeIsPartition | src/events/events.service.ts:86-118 | for duplicate-free input whose ids lie below the fresh ones, each input event is deleted or returned unchanged, never both; every returned event that is not an input event has a fresh id |
| EventsService.MergeCountGrows | src/events/events.service.ts:95-97 | each merged group raises the count of merges before every later group |
| EventsService.MergedIdsDistinct | src/events/events.service.ts:95-97 | two merged events get distinct fresh ids; that the ids also rise in group order comes from numbering fresh ids in save order, and only their distinctness corresponds to the store's unordered uuid keys |
| EventsService.OutputRepresentsGroup | src/events/events.service.ts:95-101 | a singleton's event is returned unchanged; a larger group's event has the next fresh id, spans the group, has its highest-priority status and unites its invitees |
| EventsService.OutputStart | src/events/events.service.ts:128-131 | the returned event of a start-ordered group starts with that group's first member |
| EventsService.SortedGroups | src/events/events.service.ts:72-76 | cutting start-ordered events into groups keeps each group, and the groups' first members, in start order |
| EventsService.OutputsChronological | src/events/events.service.ts:72-113 | on start-ordered input each returned event starts with its group's first member, and the returned events are in start order |
| EventsService.ReturnedEventsChronological | src/events/events.service.ts:72-113 | the sweep over events in the store's start order returns events in start order |
| EventsService.ReturnedEventsWellFormed | src/events/events.service.ts:128-136 | if every input event starts before it ends, so does every returned event |
| Scenarios.MergePair | src/events/events.service.ts:127-177 | merging two events with descriptions: the titles and the descriptions are joined in order; the start is the earlier one and the end the later one; the invitees are the first event's followed by the second's new ones |
| Scenarios.OverlappingPairGroups | src/events/events.service.ts:86-92 | two overlapping events form one group |
| Scenarios.OverlappingPairMerged | src/events/events.service.spec.ts:371-391 | "Event 1" (TODO, 10:00–11:00) and "Event 2" (IN_PROGRESS, 10:30–11:30) become one IN_PROGRESS event from 10:00 to 11:30, titled "Event 1 + Event 2", described "Description 1 \| Description 2", inviting user1 once; both originals are deleted |
| Scenarios.MergedPairEvent | src/events/events.service.spec.ts:371-380 | the merged event of that test, field by field |
| Scenarios.SeparateEventsKept | src/events/events.service.spec.ts:394-413 | two events that do not overlap are returned unchanged and nothing is deleted |
| Scenarios.ThreeEventGroups | src/events/events.service.ts:86-104 | after two overlapping events, a third event that does not overlap the second opens a second group, whether or not it overlaps the first |
| Scenarios.SweepCanLeaveOverlaps | src/events/events.service.ts:86-104 | when an event overlaps an earlier group member but not the last one, two events are returned, in start order, and they overlap; consolidating them again merges them into one |
| Scenarios.OverlappingPairMergesAgain | src/events/events.service.ts:86-113 | a sweep over two overlapping events returns a single event |
| Scenarios.WorkshopStillOverlapsDemo | src/events/events.service.ts:86-104 | a 10:00–14:00 workshop that swallows a 10:30–11:00 break is returned beside a 12:00–13:00 demo that it overlaps |

## Left out

- Persistence is not modelled. The TypeORM repository calls (`findOne`, `find`, `findByIds`, `create`, `save`, `remove`) become inputs and outputs:
  - `userExists` is the answer of the user lookup;
  - `userEvents` is the user's events, as the store lists them;
  - `users` is the user table;
  - `newId` and `idBase` are the ids the store assigns;
  - the `removed` field is the argument of the single `remove` call.
- `async`/`await` and Promises are not modelled. The algorithm has no concurrency.
- Times are integers. JavaScript `Date` objects, ISO string parsing and invalid dates (`NaN` compares false in every direction) are not modelled.
- Ids are numbers. The store's uuid keys are not modelled: fresh ids are numbered from `idBase` in save order. `MergeIsPartition` takes freshness, meaning every existing id lies below `idBase`, as a hypothesis.
- Invitees are user ids. The `User` rows behind them are not modelled, and two rows with the same id count as the same user.
- The `createdAt` and `updatedAt` columns are not modelled.
- `findOne`, `remove`, `createUser`, `findAllUsers`, `findUserById` and `removeUser` are not modelled. They are thin repository wrappers.
- The controllers, modules, configuration, DTO validation decorators and ORM decorators are not modelled. They are HTTP routing, dependency-injection wiring and declarative library validation.
- `findByIds` is modelled as the set of stored users whose id is requested. A request that names the same invitee twice therefore finds fewer users than ids and is rejected with `NotFound`. That is what the code's length comparison does.
- The order of events with equal start times comes from the database. Nothing in the model depends on it: the ordering lemmas assume only non-decreasing start times.
- Consolidating the output again can still find events to merge, because each event is compared only with the last member of the open group. `SweepCanLeaveOverlaps` and `WorkshopStillOverlapsDemo` prove a counterexample, and idempotence is not stated.
