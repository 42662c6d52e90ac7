/** The event service: validation on creation and the consolidation of a
    user's overlapping events. The repositories are replaced by what they
    hand to the service and what the service hands back to them. */
module EventsService {
  import opened Wrappers
  import opened Entities
  import opened EventMerge
  import opened OverlapGroups

  /** The two HTTP exceptions the service throws. */
  datatype ServiceError = BadRequest(message: string) | NotFound(message: string)

  /** The creation request: the event's fields plus the ids of its invitees. */
  datatype CreateEventDto = CreateEventDto(
    title: string,
    description: Option<string>,
    status: EventStatus,
    startTime: int,
    endTime: int,
    inviteeIds: seq<UserId>)

  /** findByIds against the user table `users`: every stored user whose id
      is requested, each once however often it is requested. */
  function FindByIds(users: set<UserId>, ids: seq<UserId>): set<UserId>
  {
    set u | u in ids && u in users
  }

  /** The store finds as many users as were requested exactly when the
      requested ids are all stored and pairwise distinct. */
  lemma {:induction false} FoundAllRequested(users: set<UserId>, ids: seq<UserId>)
    ensures |FindByIds(users, ids)| <= |ids|
    ensures |FindByIds(users, ids)| == |ids| <==> NoDup(ids) && forall u | u in ids :: u in users
    decreases |ids|
  {
    if ids != [] {
      var init := ids[..|ids| - 1];
      var x := ids[|ids| - 1];
      FoundAllRequested(users, init);
      assert ids == init + [x];
      var before := FindByIds(users, init);
      if x in users && x !in init {
        assert FindByIds(users, ids) == before + {x};
        assert x !in before;
        assert NoDup(ids) <==> NoDup(init) by {
          if NoDup(init) {
            forall i, j | 0 <= i < j < |ids| ensures ids[i] != ids[j] {
              if j < |init| {
                assert ids[i] == init[i] && ids[j] == init[j];
              } else {
                assert ids[i] == init[i];
              }
            }
          }
          if NoDup(ids) {
            forall i, j | 0 <= i < j < |init| ensures init[i] != init[j] {
              assert ids[i] == init[i] && ids[j] == init[j];
            }
          }
        }
      } else {
        assert FindByIds(users, ids) == before;
        if x in init {
          var k :| 0 <= k < |init| && init[k] == x;
          assert ids[k] == ids[|ids| - 1];
        }
      }
    }
  }

  /** create: an event is stored only when it starts strictly before it ends
      and every invitee is found; the time check comes first. `users` is the
      user table and `newId` the identity the store assigns. */
  function Create(dto: CreateEventDto, users: set<UserId>, newId: EventId): (r: Result<Event, ServiceError>)
    ensures r.Ok? <==>
      dto.startTime < dto.endTime && NoDup(dto.inviteeIds) && forall u | u in dto.inviteeIds :: u in users
    ensures dto.startTime >= dto.endTime ==> r == Err(BadRequest("Start time must be before end time"))
    ensures dto.startTime < dto.endTime && r.Err? ==> r == Err(NotFound("One or more invitees not found"))
    ensures r.Ok? ==>
      && WellFormed(r.value)
      && r.value.id == newId
      && r.value.title == dto.title && r.value.description == dto.description
      && r.value.status == dto.status
      && r.value.startTime == dto.startTime && r.value.endTime == dto.endTime
      && NoDup(r.value.invitees)
      && forall u :: u in r.value.invitees <==> u in dto.inviteeIds
  {
    FoundAllRequested(users, dto.inviteeIds);
    if dto.startTime >= dto.endTime then
      Err(BadRequest("Start time must be before end time"))
    else if |FindByIds(users, dto.inviteeIds)| != |dto.inviteeIds| then
      Err(NotFound("One or more invitees not found"))
    else
      Ok(Event(newId, dto.title, dto.description, dto.status, dto.startTime, dto.endTime, dto.inviteeIds))
  }

  /** How many groups of the sweep have two or more members. */
  function MergeCount(gs: seq<seq<Event>>): (n: nat)
    ensures n <= |gs|
  {
    if gs == [] then 0 else MergeCount(gs[..|gs| - 1]) + (if |Last(gs)| > 1 then 1 else 0)
  }

  /** What closing a group produces: its only member, passed through, or
      the merge of its members under a fresh id. */
  datatype Emission = PassThrough(event: Event) | Merged(group: seq<Event>, id: EventId)

  predicate Realizable(em: Emission)
  {
    em.Merged? ==> |em.group| > 0
  }

  predicate AllRealizable(ems: seq<Emission>)
  {
    forall k | 0 <= k < |ems| :: Realizable(ems[k])
  }

  /** The event an emission stands for. */
  function Realize(em: Emission): Event
    requires Realizable(em)
  {
    match em
    case PassThrough(e) => e
    case Merged(g, id) => MergeEventGroup(g, id)
  }

  /** Closing group `g` when the next fresh id is `id`. */
  function Emit(g: seq<Event>, id: EventId): (em: Emission)
    requires |g| > 0
    ensures Realizable(em)
  {
    if |g| > 1 then Merged(g, id) else PassThrough(g[0])
  }

  /** What the sweep emits for the groups `gs`, one emission per group, in
      group order; merged groups take the ids idBase, idBase + 1, ... in the
      order they are closed. */
  function Emissions(gs: seq<seq<Event>>, idBase: EventId): (ems: seq<Emission>)
    requires AllNonEmpty(gs)
    ensures |ems| == |gs| && AllRealizable(ems)
  {
    if gs == [] then []
    else
      var init := gs[..|gs| - 1];
      Emissions(init, idBase) + [Emit(Last(gs), idBase + MergeCount(init))]
  }

  function Realized(ems: seq<Emission>): (out: seq<Event>)
    requires AllRealizable(ems)
    ensures |out| == |ems|
  {
    seq(|ems|, k requires 0 <= k < |ems| => Realize(ems[k]))
  }

  /** The events returned for the groups `gs`. */
  function Outputs(gs: seq<seq<Event>>, idBase: EventId): (out: seq<Event>)
    requires AllNonEmpty(gs)
    ensures |out| == |gs|
  {
    Realized(Emissions(gs, idBase))
  }

  /** The members of every group of two or more, in order: the events to
      delete. */
  function Superseded(gs: seq<seq<Event>>): seq<Event>
  {
    if gs == [] then [] else Superseded(gs[..|gs| - 1]) + (if |Last(gs)| > 1 then Last(gs) else [])
  }

  /** The members of the singleton groups, in order: the events passed
      through. */
  function Kept(gs: seq<seq<Event>>): seq<Event>
  {
    if gs == [] then [] else Kept(gs[..|gs| - 1]) + (if |Last(gs)| == 1 then Last(gs) else [])
  }

  lemma EmissionsSnoc(gs: seq<seq<Event>>, g: seq<Event>, idBase: EventId)
    requires AllNonEmpty(gs) && |g| > 0
    ensures AllNonEmpty(gs + [g])
    ensures Emissions(gs + [g], idBase) == Emissions(gs, idBase) + [Emit(g, idBase + MergeCount(gs))]
    ensures Superseded(gs + [g]) == Superseded(gs) + (if |g| > 1 then g else [])
    ensures Kept(gs + [g]) == Kept(gs) + (if |g| == 1 then g else [])
    ensures MergeCount(gs + [g]) == MergeCount(gs) + (if |g| > 1 then 1 else 0)
  {
    assert (gs + [g])[..|gs|] == gs;
  }

  lemma RealizedSnoc(ems: seq<Emission>, em: Emission)
    requires AllRealizable(ems) && Realizable(em)
    ensures AllRealizable(ems + [em])
    ensures Realized(ems + [em]) == Realized(ems) + [Realize(em)]
  {
    assert (ems + [em])[..|ems|] == ems;
  }

  /** Closing one more group appends what it emits, its members if it is
      merged, and advances the id counter if it is merged. */
  lemma CloseGroup(gs: seq<seq<Event>>, g: seq<Event>, idBase: EventId)
    requires AllNonEmpty(gs) && |g| > 0
    ensures AllNonEmpty(gs + [g])
    ensures Outputs(gs + [g], idBase) == Outputs(gs, idBase) + [Realize(Emit(g, idBase + MergeCount(gs)))]
    ensures Superseded(gs + [g]) == Superseded(gs) + (if |g| > 1 then g else [])
    ensures Kept(gs + [g]) == Kept(gs) + (if |g| == 1 then g else [])
    ensures MergeCount(gs + [g]) == MergeCount(gs) + (if |g| > 1 then 1 else 0)
  {
    EmissionsSnoc(gs, g, idBase);
    RealizedSnoc(Emissions(gs, idBase), Emit(g, idBase + MergeCount(gs)));
  }

  /** The sweep step: the next event extends the open group when it
      overlaps that group's last member, and opens a new group otherwise. */
  lemma GroupsStep(es: seq<Event>, i: nat, closed: seq<seq<Event>>, currentGroup: seq<Event>)
    requires i < |es| && Groups(es[..i]) == closed + [currentGroup]
    ensures Overlap(Last(currentGroup), es[i]) ==>
      Groups(es[..i + 1]) == closed + [currentGroup + [es[i]]]
    ensures !Overlap(Last(currentGroup), es[i]) ==>
      Groups(es[..i + 1]) == (closed + [currentGroup]) + [[es[i]]]
  {
    assert es[..i + 1][..i] == es[..i];
    var gs := closed + [currentGroup];
    assert gs[..|gs| - 1] == closed;
  }

  /** The result of a consolidation: the events returned, and the argument
      of the one call to the repository's remove, if it is made. */
  datatype MergeOutcome = MergeOutcome(merged: seq<Event>, removed: Option<seq<Event>>)

  /** Closing the open group: a group of two or more is merged under the
      next fresh id and its members are queued for deletion; a singleton is
      passed through. `closed` are the groups closed so far. */
  method CloseCurrentGroup(
    ghost closed: seq<seq<Event>>, idBase: EventId,
    currentGroup: seq<Event>, mergedEvents: seq<Event>, toDelete: seq<Event>, nextId: EventId)
    returns (mergedEvents': seq<Event>, toDelete': seq<Event>, nextId': EventId)
    requires AllNonEmpty(closed) && |currentGroup| > 0
    requires mergedEvents == Outputs(closed, idBase)
    requires toDelete == Superseded(closed)
    requires nextId == idBase + MergeCount(closed)
    ensures AllNonEmpty(closed + [currentGroup])
    ensures mergedEvents' == Outputs(closed + [currentGroup], idBase)
    ensures toDelete' == Superseded(closed + [currentGroup])
    ensures nextId' == idBase + MergeCount(closed + [currentGroup])
  {
    CloseGroup(closed, currentGroup, idBase);
    if |currentGroup| > 1 {
      var merged := MergeEventGroup(currentGroup, nextId);
      assert merged == Realize(Emit(currentGroup, nextId));
      mergedEvents' := mergedEvents + [merged];
      toDelete' := toDelete + currentGroup;
      nextId' := nextId + 1;
    } else {
      assert currentGroup[0] == Realize(Emit(currentGroup, nextId));
      mergedEvents' := mergedEvents + [currentGroup[0]];
      toDelete' := toDelete;
      nextId' := nextId;
    }
  }

  /** The sweep over a non-empty list of events: the returned events and the
      events to delete are those of the groups the sweep forms. */
  method MergeSweep(userEvents: seq<Event>, idBase: EventId) returns (mergedEvents: seq<Event>, toDelete: seq<Event>)
    requires |userEvents| > 0
    ensures mergedEvents == Outputs(Groups(userEvents), idBase)
    ensures toDelete == Superseded(Groups(userEvents))
  {
    mergedEvents, toDelete := [], [];
    var currentGroup := [userEvents[0]];
    var nextId := idBase;
    ghost var closed: seq<seq<Event>> := [];
    assert userEvents[..1] == [] + [userEvents[0]];
    for i := 1 to |userEvents|
      invariant Groups(userEvents[..i]) == closed + [currentGroup]
      invariant AllNonEmpty(closed) && |currentGroup| > 0
      invariant mergedEvents == Outputs(closed, idBase)
      invariant toDelete == Superseded(closed)
      invariant nextId == idBase + MergeCount(closed)
    {
      var currentEvent := userEvents[i];
      var lastEventInGroup := currentGroup[|currentGroup| - 1];
      GroupsStep(userEvents, i, closed, currentGroup);
      if Overlap(lastEventInGroup, currentEvent) {
        currentGroup := currentGroup + [currentEvent];
      } else {
        mergedEvents, toDelete, nextId := CloseCurrentGroup(closed, idBase, currentGroup, mergedEvents, toDelete, nextId);
        closed := closed + [currentGroup];
        currentGroup := [currentEvent];
      }
    }
    mergedEvents, toDelete, nextId := CloseCurrentGroup(closed, idBase, currentGroup, mergedEvents, toDelete, nextId);
    assert userEvents[..|userEvents|] == userEvents;
  }

  /** mergeAllOverlappingEvents. `userExists` is the answer of the user
      lookup, `userEvents` the user's events as the store lists them and
      `idBase` the first identity the store hands to a merged event. */
  method MergeAllOverlappingEvents(userId: UserId, userExists: bool, userEvents: seq<Event>, idBase: EventId)
    returns (r: Result<MergeOutcome, ServiceError>)
    ensures !userExists ==> r == Err(NotFound("User with ID " + userId + " not found"))
    ensures userExists ==> r.Ok?
    ensures r.Ok? ==> r.value.merged == Outputs(Groups(userEvents), idBase)
    ensures r.Ok? ==>
      r.value.removed == if Superseded(Groups(userEvents)) == [] then None else Some(Superseded(Groups(userEvents)))
    ensures r.Ok? && |userEvents| <= 1 ==> r.value == MergeOutcome(userEvents, None)
  {
    if !userExists {
      return Err(NotFound("User with ID " + userId + " not found"));
    }
    if |userEvents| <= 1 {
      FewEventsPassThrough(userEvents, idBase);
      return Ok(MergeOutcome(userEvents, None));
    }
    var mergedEvents, toDelete := MergeSweep(userEvents, idBase);
    var removed := None;
    if |toDelete| > 0 {
      removed := Some(toDelete);
    }
    return Ok(MergeOutcome(mergedEvents, removed));
  }

  /** With at most one event there is nothing to merge. */
  lemma FewEventsPassThrough(es: seq<Event>, idBase: EventId)
    requires |es| <= 1
    ensures Outputs(Groups(es), idBase) == es
    ensures Superseded(Groups(es)) == []
  {
    if es != [] {
      assert es[..0] == [];
      assert Groups(es) == [es];
      SingleGroupOutputs(es, idBase);
      assert Emit(es, idBase) == PassThrough(es[0]);
      assert [es[0]] == es;
    }
  }

  /** A single group yields a single event and deletes its members only
      when it has two or more. */
  lemma SingleGroupOutputs(g: seq<Event>, idBase: EventId)
    requires |g| > 0
    ensures Outputs([g], idBase) == [Realize(Emit(g, idBase))]
    ensures Superseded([g]) == if |g| > 1 then g else []
  {
    CloseGroup([], g, idBase);
  }

  lemma {:induction false} EmissionAt(gs: seq<seq<Event>>, idBase: EventId, k: nat)
    requires AllNonEmpty(gs) && k < |gs|
    ensures Emissions(gs, idBase)[k] == Emit(gs[k], idBase + MergeCount(gs[..k]))
    decreases |gs|
  {
    var n := |gs| - 1;
    if k < n {
      var init := gs[..n];
      EmissionAt(init, idBase, k);
      assert init[..k] == gs[..k];
    }
  }

  /** The k-th returned event is what closing the k-th group emits, under
      the id that counts the merges before it. */
  lemma OutputAt(gs: seq<seq<Event>>, idBase: EventId, k: nat)
    requires AllNonEmpty(gs) && k < |gs|
    ensures Outputs(gs, idBase)[k] == Realize(Emit(gs[k], idBase + MergeCount(gs[..k])))
  {
    EmissionAt(gs, idBase, k);
  }

  lemma {:induction false} MemberInFlatten(gs: seq<seq<Event>>, k: nat, e: Event)
    requires k < |gs| && e in gs[k]
    ensures e in Flatten(gs)
    decreases |gs|
  {
    if k < |gs| - 1 {
      MemberInFlatten(gs[..|gs| - 1], k, e);
    }
  }

  /** The input splits into the events to delete and the events passed
      through: every input event lands in exactly one of the two, as often
      as it occurs. */
  lemma {:induction false} SupersededKeptPartition(gs: seq<seq<Event>>)
    requires AllNonEmpty(gs)
    ensures multiset(Flatten(gs)) == multiset(Superseded(gs)) + multiset(Kept(gs))
    decreases |gs|
  {
    if gs != [] {
      SupersededKeptPartition(gs[..|gs| - 1]);
    }
  }

  /** Every passed-through event is returned, and every returned event is
      either passed through or a merged event under a fresh id. */
  lemma {:induction false} OutputsAreKeptOrMerged(gs: seq<seq<Event>>, idBase: EventId)
    requires AllNonEmpty(gs)
    ensures forall x | x in Kept(gs) :: x in Outputs(gs, idBase)
    ensures forall x | x in Outputs(gs, idBase) :: x in Kept(gs) || x.id >= idBase
    decreases |gs|
  {
    if gs != [] {
      var n := |gs| - 1;
      var init := gs[..n];
      assert gs == init + [gs[n]];
      OutputsAreKeptOrMerged(init, idBase);
      CloseGroup(init, gs[n], idBase);
    }
  }

  lemma {:induction false} NoDupOnce<T>(s: seq<T>, x: T)
    requires NoDup(s)
    ensures multiset(s)[x] <= 1
    decreases |s|
  {
    if s != [] {
      var init := s[..|s| - 1];
      assert s == init + [s[|s| - 1]];
      NoDupOnce(init, x);
      if x == s[|s| - 1] {
        forall i | 0 <= i < |init| ensures init[i] != x {
          assert init[i] == s[i];
        }
      }
    }
  }

  /** Partition: when the input holds each event once and the store's fresh
      ids lie above all existing ones, each input event is either deleted or
      returned unchanged, never both, and every returned event that is not
      an input event is a merged event under a fresh id. */
  lemma MergeIsPartition(es: seq<Event>, idBase: EventId)
    requires NoDup(es)
    requires forall e | e in es :: e.id < idBase
    ensures var gs := Groups(es);
      multiset(es) == multiset(Superseded(gs)) + multiset(Kept(gs))
    ensures var gs := Groups(es);
      forall e | e in es :: e in Superseded(gs) <==> e !in Outputs(gs, idBase)
    ensures forall x | x in Outputs(Groups(es), idBase) && x !in es :: x.id >= idBase
  {
    var gs := Groups(es);
    SupersededKeptPartition(gs);
    OutputsAreKeptOrMerged(gs, idBase);
    forall e | e in es
      ensures e in Superseded(gs) <==> e !in Outputs(gs, idBase)
    {
      NoDupOnce(es, e);
      assert multiset(es)[e] == multiset(Superseded(gs))[e] + multiset(Kept(gs))[e];
      assert e in Superseded(gs) <==> multiset(Superseded(gs))[e] > 0;
      assert e in Kept(gs) <==> multiset(Kept(gs))[e] > 0;
      assert e in Outputs(gs, idBase) <==> e in Kept(gs);
    }
    forall x | x in Kept(gs)
      ensures x in es
    {
      assert multiset(Kept(gs))[x] > 0;
      assert multiset(es)[x] > 0;
    }
  }

  /** Merged events take strictly increasing ids in the order of their
      groups. */
  lemma {:induction false} MergeCountGrows(gs: seq<seq<Event>>, i: nat, j: nat)
    requires i < j <= |gs| && |gs[i]| > 1
    ensures MergeCount(gs[..i]) < MergeCount(gs[..j])
    decreases j
  {
    var p := gs[..j];
    assert p[..j - 1] == gs[..j - 1];
    if j - 1 > i {
      MergeCountGrows(gs, i, j - 1);
    }
  }

  /** No two merged events share an id, and none takes an id below idBase.
      The order of the two ids comes from numbering fresh ids in save order;
      the store's uuid keys have no order, so only their distinctness
      corresponds to the program. */
  lemma MergedIdsDistinct(gs: seq<seq<Event>>, idBase: EventId, i: nat, j: nat)
    requires AllNonEmpty(gs) && i < j < |gs| && |gs[i]| > 1 && |gs[j]| > 1
    ensures idBase <= Outputs(gs, idBase)[i].id < Outputs(gs, idBase)[j].id
  {
    OutputRepresentsGroup(gs, idBase, i);
    OutputRepresentsGroup(gs, idBase, j);
    MergeCountGrows(gs, i, j);
  }

  /** Each returned event stands for its group: a singleton's member is
      returned unchanged, and a larger group is returned as one event under
      the id that counts the merges before it, spanning the group, carrying
      its highest status and uniting its invitees. */
  lemma OutputRepresentsGroup(gs: seq<seq<Event>>, idBase: EventId, k: nat)
    requires AllNonEmpty(gs) && k < |gs|
    ensures |gs[k]| == 1 ==> Outputs(gs, idBase)[k] == gs[k][0]
    ensures |gs[k]| > 1 ==>
      && Outputs(gs, idBase)[k].id == idBase + MergeCount(gs[..k])
      && SpansGroup(Outputs(gs, idBase)[k], gs[k])
      && HasHighestStatus(Outputs(gs, idBase)[k], gs[k])
      && UnitesInvitees(Outputs(gs, idBase)[k], gs[k])
  {
    OutputAt(gs, idBase, k);
  }

  lemma SortedSplit(a: seq<Event>, b: seq<Event>)
    requires SortedByStart(a + b)
    ensures SortedByStart(a) && SortedByStart(b)
    ensures forall x, y | x in a && y in b :: x.startTime <= y.startTime
  {
    forall i, j | 0 <= i <= j < |a| ensures a[i].startTime <= a[j].startTime {
      assert a[i] == (a + b)[i] && a[j] == (a + b)[j];
    }
    forall i, j | 0 <= i <= j < |b| ensures b[i].startTime <= b[j].startTime {
      assert b[i] == (a + b)[|a| + i] && b[j] == (a + b)[|a| + j];
    }
    forall x, y | x in a && y in b ensures x.startTime <= y.startTime {
      var i :| 0 <= i < |a| && a[i] == x;
      var j :| 0 <= j < |b| && b[j] == y;
      assert (a + b)[i] == x && (a + b)[|a| + j] == y;
    }
  }

  /** A group listed in start order is returned as an event that starts
      with the group's first member. */
  lemma OutputStart(gs: seq<seq<Event>>, idBase: EventId, k: nat)
    requires AllNonEmpty(gs) && k < |gs| && SortedByStart(gs[k])
    ensures Outputs(gs, idBase)[k].startTime == gs[k][0].startTime
  {
    OutputAt(gs, idBase, k);
    if |gs[k]| > 1 {
      MergedStartIsFirst(gs[k], idBase + MergeCount(gs[..k]));
    }
  }

  /** Cutting start-ordered events into groups leaves every group in start
      order and the groups' first members in start order. */
  lemma {:induction false} SortedGroups(gs: seq<seq<Event>>)
    requires AllNonEmpty(gs) && SortedByStart(Flatten(gs))
    ensures forall k | 0 <= k < |gs| :: SortedByStart(gs[k])
    ensures forall i, j | 0 <= i <= j < |gs| :: gs[i][0].startTime <= gs[j][0].startTime
    decreases |gs|
  {
    if gs != [] {
      var n := |gs| - 1;
      var init := gs[..n];
      var g := gs[n];
      assert gs == init + [g];
      SortedSplit(Flatten(init), g);
      SortedGroups(init);
      forall i | 0 <= i < n ensures gs[i][0].startTime <= g[0].startTime {
        MemberInFlatten(init, i, init[i][0]);
      }
    }
  }

  /** On start-ordered input each returned event starts with the first
      member of its group, and the returned events are start-ordered. */
  lemma OutputsChronological(gs: seq<seq<Event>>, idBase: EventId)
    requires AllNonEmpty(gs) && SortedByStart(Flatten(gs))
    ensures forall k | 0 <= k < |gs| :: Outputs(gs, idBase)[k].startTime == gs[k][0].startTime
    ensures SortedByStart(Outputs(gs, idBase))
  {
    SortedGroups(gs);
    forall k | 0 <= k < |gs| ensures Outputs(gs, idBase)[k].startTime == gs[k][0].startTime {
      OutputStart(gs, idBase, k);
    }
  }

  /** The sweep over start-ordered input returns start-ordered events. */
  lemma ReturnedEventsChronological(es: seq<Event>, idBase: EventId)
    requires SortedByStart(es)
    ensures SortedByStart(Outputs(Groups(es), idBase))
  {
    OutputsChronological(Groups(es), idBase);
  }

  /** Events that each start before they end are returned as events that
      each start before they end. */
  lemma ReturnedEventsWellFormed(es: seq<Event>, idBase: EventId)
    requires forall e | e in es :: WellFormed(e)
    ensures forall x | x in Outputs(Groups(es), idBase) :: WellFormed(x)
  {
    var gs := Groups(es);
    var o := Outputs(gs, idBase);
    forall k | 0 <= k < |o| ensures WellFormed(o[k]) {
      OutputAt(gs, idBase, k);
      forall e | e in gs[k] ensures WellFormed(e) {
        MemberInFlatten(gs, k, e);
      }
      if |gs[k]| > 1 {
        MergedIsWellFormed(gs[k], idBase + MergeCount(gs[..k]));
      }
    }
  }
}
