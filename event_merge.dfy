/** The two private helpers of the event service: the overlap test and
    the combination of an overlapping group into one event. */
module EventMerge {
  import opened Wrappers
  import opened Entities
  import opened Strings

  /** doEventsOverlap: the spans intersect; both comparisons are strict. */
  predicate Overlap(a: Event, b: Event)
  {
    a.endTime > b.startTime && a.startTime < b.endTime
  }

  /** Instant `t` lies in the half-open span [startTime, endTime) of `e`. */
  predicate Covers(e: Event, t: int)
  {
    e.startTime <= t < e.endTime
  }

  /** Two well-formed events overlap exactly when some instant lies in
      both spans. */
  lemma OverlapIffSharedInstant(a: Event, b: Event)
    requires WellFormed(a) && WellFormed(b)
    ensures Overlap(a, b) <==> exists t :: Covers(a, t) && Covers(b, t)
  {
    if Overlap(a, b) {
      var t := if a.startTime < b.startTime then b.startTime else a.startTime;
      assert Covers(a, t) && Covers(b, t);
    }
  }

  /** Events that only touch at an endpoint never overlap, in either order. */
  lemma TouchingDoNotOverlap(a: Event, b: Event)
    requires a.endTime == b.startTime
    ensures !Overlap(a, b) && !Overlap(b, a)
  {
  }

  /** The rank used to pick the merged status. */
  function Priority(s: EventStatus): nat
  {
    match s
    case InProgress => 3
    case Todo => 2
    case Completed => 1
  }

  /** The reduce over start times, from `acc`, keeping the smaller one. */
  function EarliestStart(acc: int, es: seq<Event>): (r: int)
    ensures r <= acc
    ensures forall e | e in es :: r <= e.startTime
    ensures r == acc || exists e | e in es :: r == e.startTime
    decreases |es|
  {
    if es == [] then acc
    else EarliestStart(if es[0].startTime < acc then es[0].startTime else acc, es[1..])
  }

  /** The reduce over end times, from `acc`, keeping the larger one. */
  function LatestEnd(acc: int, es: seq<Event>): (r: int)
    ensures acc <= r
    ensures forall e | e in es :: e.endTime <= r
    ensures r == acc || exists e | e in es :: r == e.endTime
    decreases |es|
  {
    if es == [] then acc
    else LatestEnd(if es[0].endTime > acc then es[0].endTime else acc, es[1..])
  }

  /** The reduce over statuses, from `acc`, replacing the running status
      only by one of strictly higher priority. */
  function HighestStatus(acc: EventStatus, es: seq<Event>): (r: EventStatus)
    ensures Priority(acc) <= Priority(r)
    ensures forall e | e in es :: Priority(e.status) <= Priority(r)
    ensures r == acc || exists e | e in es :: r == e.status
    decreases |es|
  {
    if es == [] then acc
    else HighestStatus(if Priority(es[0].status) > Priority(acc) then es[0].status else acc, es[1..])
  }

  function Titles(es: seq<Event>): seq<string>
  {
    seq(|es|, i requires 0 <= i < |es| => es[i].title)
  }

  function Text(d: Option<string>): string
  {
    if d.Some? then d.value else ""
  }

  /** A description the filter keeps: present and not the empty string. */
  predicate Truthy(d: Option<string>)
  {
    d.Some? && d.value != ""
  }

  /** The member descriptions that survive the truthiness filter, in order. */
  function Descriptions(es: seq<Event>): (ds: seq<string>)
    ensures |ds| <= |es|
    ensures forall d | d in ds :: d != ""
    decreases |es|
  {
    if es == [] then []
    else (if Truthy(es[0].description) then [es[0].description.value] else []) + Descriptions(es[1..])
  }

  /** Setting each id as a key of an insertion-ordered map: a new id goes
      to the end, a known one leaves the order as it is. */
  function AddInvitees(acc: seq<UserId>, ids: seq<UserId>): (r: seq<UserId>)
    ensures NoDup(acc) ==> NoDup(r)
    ensures forall u :: u in r <==> u in acc || u in ids
    ensures acc <= r
    decreases |ids|
  {
    if ids == [] then acc
    else AddInvitees(if ids[0] in acc then acc else acc + [ids[0]], ids[1..])
  }

  /** The map of invitees filled event by event, read back as its keys. */
  function CollectInvitees(acc: seq<UserId>, es: seq<Event>): (r: seq<UserId>)
    ensures NoDup(acc) ==> NoDup(r)
    ensures forall u :: u in r <==> u in acc || exists e | e in es :: u in e.invitees
    decreases |es|
  {
    if es == [] then acc
    else CollectInvitees(AddInvitees(acc, es[0].invitees), es[1..])
  }

  /** `m` spans exactly the members of `group`: no member starts before it
      or ends after it, and some member starts with it and some ends with it. */
  ghost predicate SpansGroup(m: Event, group: seq<Event>)
  {
    && (forall e | e in group :: m.startTime <= e.startTime && e.endTime <= m.endTime)
    && (exists e | e in group :: e.startTime == m.startTime)
    && (exists e | e in group :: e.endTime == m.endTime)
  }

  /** The status of `m` is a member's status of the highest priority. */
  ghost predicate HasHighestStatus(m: Event, group: seq<Event>)
  {
    && (forall e | e in group :: Priority(e.status) <= Priority(m.status))
    && (exists e | e in group :: e.status == m.status)
  }

  /** The invitees of `m` are the members' invitees, each listed once. */
  ghost predicate UnitesInvitees(m: Event, group: seq<Event>)
  {
    && NoDup(m.invitees)
    && forall u :: u in m.invitees <==> exists e | e in group :: u in e.invitees
  }

  /** mergeEventGroup: one event that spans the whole group and combines
      its titles, descriptions, statuses and invitees; `id` is the identity
      the store gives the new row. */
  function MergeEventGroup(group: seq<Event>, id: EventId): (m: Event)
    requires |group| > 0
    ensures m.id == id
    ensures SpansGroup(m, group)
    ensures HasHighestStatus(m, group)
    ensures UnitesInvitees(m, group)
  {
    var status := HighestStatus(Completed, group);
    assert status == Completed ==> group[0].status == Completed;
    Event(
      id,
      Join(Titles(group), " + "),
      Some(Join(Descriptions(group), " | ")),
      status,
      EarliestStart(group[0].startTime, group),
      LatestEnd(group[0].endTime, group),
      CollectInvitees([], group))
  }

  /** On start-sorted input the merged event starts with the first member. */
  lemma MergedStartIsFirst(group: seq<Event>, id: EventId)
    requires |group| > 0 && SortedByStart(group)
    ensures MergeEventGroup(group, id).startTime == group[0].startTime
  {
    var m := MergeEventGroup(group, id);
    var e :| e in group && e.startTime == m.startTime;
    var k :| 0 <= k < |group| && group[k] == e;
  }

  /** Merging members that each start before they end yields an event that
      starts before it ends. */
  lemma MergedIsWellFormed(group: seq<Event>, id: EventId)
    requires |group| > 0
    requires forall e | e in group :: WellFormed(e)
    ensures WellFormed(MergeEventGroup(group, id))
  {
    var m := MergeEventGroup(group, id);
    var e :| e in group && e.startTime == m.startTime;
    assert e.endTime <= m.endTime;
  }

  /** IN_PROGRESS wins whenever present, TODO beats COMPLETED, and
      COMPLETED remains only when every member is COMPLETED. */
  lemma MergedStatusCases(group: seq<Event>, id: EventId)
    requires |group| > 0
    ensures var s := MergeEventGroup(group, id).status;
      && (s == InProgress <==> exists e | e in group :: e.status == InProgress)
      && (s == Todo <==> (exists e | e in group :: e.status == Todo) &&
                         forall e | e in group :: e.status != InProgress)
      && (s == Completed <==> forall e | e in group :: e.status == Completed)
  {
  }

  /** The merged title: the member titles, in group order, between " + ". */
  lemma MergedTitle(group: seq<Event>, id: EventId)
    requires |group| > 0
    ensures |group| == 1 ==> MergeEventGroup(group, id).title == group[0].title
    ensures forall k | 0 < k < |group| ::
      MergeEventGroup(group, id).title ==
        MergeEventGroup(group[..k], id).title + " + " + MergeEventGroup(group[k..], id).title
  {
    forall k | 0 < k < |group|
      ensures MergeEventGroup(group, id).title ==
        MergeEventGroup(group[..k], id).title + " + " + MergeEventGroup(group[k..], id).title
    {
      assert Titles(group) == Titles(group[..k]) + Titles(group[k..]);
      JoinConcat(Titles(group[..k]), Titles(group[k..]), " + ");
    }
  }

  lemma {:induction false} DescriptionsConcat(a: seq<Event>, b: seq<Event>)
    ensures Descriptions(a + b) == Descriptions(a) + Descriptions(b)
    decreases |a|
  {
    if a == [] {
      assert a + b == b;
    } else {
      DescriptionsConcat(a[1..], b);
      assert (a + b)[1..] == a[1..] + b;
    }
  }

  /** A member whose description is absent or empty contributes no segment
      to the merged description. */
  lemma MergedDescriptionSkipsEmpty(a: seq<Event>, e: Event, b: seq<Event>, id: EventId)
    requires !Truthy(e.description) && |a + b| > 0
    ensures MergeEventGroup(a + [e] + b, id).description == MergeEventGroup(a + b, id).description
  {
    assert Descriptions(a + [e] + b) == Descriptions(a + b) by {
      DescriptionsConcat(a + [e], b);
      DescriptionsConcat(a, [e]);
      DescriptionsConcat(a, b);
      assert Descriptions([e]) == [];
    }
  }

  /** When every member has a non-empty description, the merged description
      is all of them, in group order, between " | "; when none has, it is "". */
  lemma MergedDescriptionExtremes(group: seq<Event>, id: EventId)
    requires |group| > 0
    ensures (forall e | e in group :: Truthy(e.description)) ==>
      MergeEventGroup(group, id).description ==
        Some(Join(seq(|group|, i requires 0 <= i < |group| => Text(group[i].description)), " | "))
    ensures (forall e | e in group :: !Truthy(e.description)) ==>
      MergeEventGroup(group, id).description == Some("")
  {
    if forall e | e in group :: Truthy(e.description) {
      AllTruthyAllDescriptions(group);
    }
    if forall e | e in group :: !Truthy(e.description) {
      NoTruthyNoDescriptions(group);
    }
  }

  lemma {:induction false} AllTruthyAllDescriptions(es: seq<Event>)
    requires forall x | x in es :: Truthy(x.description)
    ensures Descriptions(es) == seq(|es|, i requires 0 <= i < |es| => Text(es[i].description))
    decreases |es|
  {
    if es != [] {
      AllTruthyAllDescriptions(es[1..]);
    }
  }

  lemma {:induction false} NoTruthyNoDescriptions(es: seq<Event>)
    requires forall x | x in es :: !Truthy(x.description)
    ensures Descriptions(es) == []
    decreases |es|
  {
    if es != [] {
      NoTruthyNoDescriptions(es[1..]);
    }
  }
}
