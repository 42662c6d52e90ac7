/** Concrete instances of the consolidation, proved as lemmas. Times are
    minutes after midnight. */
module Scenarios {
  import opened Wrappers
  import opened Entities
  import opened Strings
  import opened EventMerge
  import opened OverlapGroups
  import opened EventsService

  /** Merging two events: titles and descriptions joined in order, the
      earlier start, the later end, and the invitees of the first followed
      by the new invitees of the second. */
  lemma MergePair(a: Event, b: Event, id: EventId)
    requires Truthy(a.description) && Truthy(b.description)
    ensures MergeEventGroup([a, b], id) ==
      Event(id, a.title + " + " + b.title,
            Some(a.description.value + " | " + b.description.value),
            HighestStatus(Completed, [a, b]),
            if b.startTime < a.startTime then b.startTime else a.startTime,
            if b.endTime > a.endTime then b.endTime else a.endTime,
            AddInvitees(AddInvitees([], a.invitees), b.invitees))
  {
    var g := [a, b];
    assert g[1..] == [b] && g[1..][1..] == [];
    assert Titles(g) == [a.title, b.title];
    assert [a.title, b.title][1..] == [b.title];
    assert Descriptions([b]) == [b.description.value];
    assert Descriptions(g) == [a.description.value, b.description.value];
    assert [a.description.value, b.description.value][1..] == [b.description.value];
    assert EarliestStart(a.startTime, g) == EarliestStart(a.startTime, [b]);
    assert LatestEnd(a.endTime, g) == LatestEnd(a.endTime, [b]);
    assert CollectInvitees([], g) == CollectInvitees(AddInvitees([], a.invitees), [b]);
    assert [b][1..] == [];
    assert Join([b.title], " + ") == b.title;
    assert Join([a.title, b.title], " + ") == a.title + " + " + Join([b.title], " + ");
    assert Join([b.description.value], " | ") == b.description.value;
    assert Join([a.description.value, b.description.value], " | ") ==
      a.description.value + " | " + Join([b.description.value], " | ");
    assert CollectInvitees(AddInvitees([], a.invitees), [b]) ==
      CollectInvitees(AddInvitees(AddInvitees([], a.invitees), b.invitees), []);
    var m := MergeEventGroup(g, id);
    assert m.title == a.title + " + " + b.title;
    assert m.description == Some(a.description.value + " | " + b.description.value);
    assert m.startTime == if b.startTime < a.startTime then b.startTime else a.startTime;
    assert m.endTime == if b.endTime > a.endTime then b.endTime else a.endTime;
    assert m.invitees == AddInvitees(AddInvitees([], a.invitees), b.invitees);
    assert m.status == HighestStatus(Completed, g);
  }

  /** Two overlapping events form one group. */
  lemma OverlappingPairGroups(a: Event, b: Event)
    requires Overlap(a, b)
    ensures Groups([a, b]) == [[a, b]]
  {
    assert [a, b][..1] == [a];
    assert [a][..0] == [];
    assert Groups([a]) == [[a]];
    assert [[a]][..0] == [];
    assert [a] + [b] == [a, b];
  }

  /** Two overlapping events, 10:00 to 11:00 (to do) and 10:30 to 11:30
      (in progress), are replaced by one in-progress event from 10:00 to
      11:30 under the next id, with their titles and descriptions joined
      and their common invitee listed once; both originals are deleted. */
  lemma OverlappingPairMerged()
    ensures var first := Event(1, "Event 1", Some("Description 1"), Todo, 600, 660, ["user1"]);
      var second := Event(2, "Event 2", Some("Description 2"), InProgress, 630, 690, ["user1"]);
      var gs := Groups([first, second]);
      && Outputs(gs, 3) == [Event(3, "Event 1 + Event 2", Some("Description 1 | Description 2"), InProgress, 600, 690, ["user1"])]
      && Superseded(gs) == [first, second]
  {
    var first := Event(1, "Event 1", Some("Description 1"), Todo, 600, 660, ["user1"]);
    var second := Event(2, "Event 2", Some("Description 2"), InProgress, 630, 690, ["user1"]);
    OverlappingPairGroups(first, second);
    SingleGroupOutputs([first, second], 3);
    MergedPairEvent();
  }

  /** The merged event of the overlapping pair, field by field. */
  lemma MergedPairEvent()
    ensures MergeEventGroup([Event(1, "Event 1", Some("Description 1"), Todo, 600, 660, ["user1"]),
                             Event(2, "Event 2", Some("Description 2"), InProgress, 630, 690, ["user1"])], 3) ==
      Event(3, "Event 1 + Event 2", Some("Description 1 | Description 2"), InProgress, 600, 690, ["user1"])
  {
    assert "Event 1" + " + " + "Event 2" == "Event 1 + Event 2";
    assert "Description 1" + " | " + "Description 2" == "Description 1 | Description 2";
    assert AddInvitees(AddInvitees([], ["user1"]), ["user1"]) == ["user1"] by {
      assert AddInvitees([], ["user1"]) == ["user1"];
    }
    var first := Event(1, "Event 1", Some("Description 1"), Todo, 600, 660, ["user1"]);
    var second := Event(2, "Event 2", Some("Description 2"), InProgress, 630, 690, ["user1"]);
    var es := [first, second];
    MergePair(first, second, 3);
    assert es[1..] == [second];
    assert HighestStatus(Completed, es) == InProgress;
  }

  /** Two events that do not overlap, 10:00 to 10:30 and 11:00 to 11:30,
      are returned unchanged and nothing is deleted. */
  lemma SeparateEventsKept()
    ensures var first := Event(1, "Event 1", Some("Description 1"), Todo, 600, 630, ["user1"]);
      var second := Event(2, "Event 2", Some("Description 2"), InProgress, 660, 690, ["user1"]);
      var gs := Groups([first, second]);
      Outputs(gs, 3) == [first, second] && Superseded(gs) == []
  {
    var first := Event(1, "Event 1", Some("Description 1"), Todo, 600, 630, ["user1"]);
    var second := Event(2, "Event 2", Some("Description 2"), InProgress, 660, 690, ["user1"]);
    assert [first, second][..1] == [first];
    assert [first][..0] == [];
    assert Groups([first]) == [[first]];
    assert Groups([first, second]) == [[first], [second]];
    SingleGroupOutputs([first], 3);
    CloseGroup([[first]], [second], 3);
  }

  /** Three events where the first two overlap and the third does not
      overlap the second form two groups, whatever the third does with the
      first. */
  lemma ThreeEventGroups(a: Event, b: Event, c: Event)
    requires Overlap(a, b) && !Overlap(b, c)
    ensures Groups([a, b, c]) == [[a, b], [c]]
  {
    OverlappingPairGroups(a, b);
    assert [a, b, c][..2] == [a, b];
  }

  /** The sweep compares each event with the last member of the open group
      only, not with the group's whole span: an event that overlaps an
      earlier member but not the last one opens a new group, the returned
      events still overlap, and consolidating them again merges them, so
      the operation is not idempotent. */
  lemma SweepCanLeaveOverlaps(a: Event, b: Event, c: Event, idBase: EventId)
    requires a.startTime <= b.startTime <= c.startTime
    requires Overlap(a, b) && !Overlap(b, c) && Overlap(a, c)
    ensures var out := Outputs(Groups([a, b, c]), idBase);
      && |out| == 2 && out[1] == c
      && Overlap(out[0], out[1])
      && SortedByStart(out)
      && |Outputs(Groups(out), idBase + 1)| == 1
  {
    ThreeEventGroups(a, b, c);
    var gs := [[a, b], [c]];
    var out := Outputs(gs, idBase);
    OutputRepresentsGroup(gs, idBase, 0);
    OutputRepresentsGroup(gs, idBase, 1);
    assert a in gs[0];
    OutputStart(gs, idBase, 0);
    assert out == [out[0], out[1]];
    OverlappingPairMergesAgain(out[0], out[1], idBase + 1);
  }

  lemma OverlappingPairMergesAgain(x: Event, y: Event, idBase: EventId)
    requires Overlap(x, y)
    ensures |Outputs(Groups([x, y]), idBase)| == 1
  {
    OverlappingPairGroups(x, y);
  }

  /** A workshop from 10:00 to 14:00 that swallows a coffee break from
      10:30 to 11:00 is returned beside, and overlapping, a demo from 12:00
      to 13:00. */
  lemma WorkshopStillOverlapsDemo()
    ensures var workshop := Event(1, "Workshop", None, Todo, 600, 840, []);
      var coffee := Event(2, "Coffee", None, Todo, 630, 660, []);
      var demo := Event(3, "Demo", None, Todo, 720, 780, []);
      var out := Outputs(Groups([workshop, coffee, demo]), 4);
      |out| == 2 && Overlap(out[0], out[1])
  {
    var workshop := Event(1, "Workshop", None, Todo, 600, 840, []);
    var coffee := Event(2, "Coffee", None, Todo, 630, 660, []);
    var demo := Event(3, "Demo", None, Todo, 720, 780, []);
    SweepCanLeaveOverlaps(workshop, coffee, demo, 4);
  }
}
