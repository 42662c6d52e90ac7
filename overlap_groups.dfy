/** How the merge sweep cuts the start-ordered events of a user into
    groups: a group grows while the next event overlaps the group's last
    member, and closes as soon as one does not. */
module OverlapGroups {
  import opened Entities
  import opened EventMerge

  function Last<T>(s: seq<T>): T
    requires |s| > 0
  {
    s[|s| - 1]
  }

  /** The groups laid end to end. */
  function Flatten(gs: seq<seq<Event>>): seq<Event>
  {
    if gs == [] then [] else Flatten(gs[..|gs| - 1]) + Last(gs)
  }

  predicate AllNonEmpty(gs: seq<seq<Event>>)
  {
    forall k | 0 <= k < |gs| :: |gs[k]| > 0
  }

  /** The groups the sweep forms over `es`: each event joins the open group
      when it overlaps that group's last member, and opens a new group
      otherwise. */
  function Groups(es: seq<Event>): (gs: seq<seq<Event>>)
    ensures AllNonEmpty(gs)
    ensures Flatten(gs) == es
    ensures |gs| <= |es|
    ensures |es| > 0 ==> |gs| > 0
    decreases |es|
  {
    if es == [] then []
    else
      var init := es[..|es| - 1];
      var gs := Groups(init);
      var e := Last(es);
      assert es == init + [e];
      if gs != [] && Overlap(Last(Last(gs)), e) then
        FlattenExtend(gs, e);
        gs[..|gs| - 1] + [Last(gs) + [e]]
      else
        FlattenSnoc(gs, [e]);
        gs + [[e]]
  }

  lemma FlattenSnoc(gs: seq<seq<Event>>, g: seq<Event>)
    ensures Flatten(gs + [g]) == Flatten(gs) + g
  {
    assert (gs + [g])[..|gs|] == gs;
  }

  lemma FlattenExtend(gs: seq<seq<Event>>, e: Event)
    requires gs != []
    ensures Flatten(gs[..|gs| - 1] + [Last(gs) + [e]]) == Flatten(gs) + [e]
  {
    var init := gs[..|gs| - 1];
    FlattenSnoc(init, Last(gs) + [e]);
    assert Flatten(init) + (Last(gs) + [e]) == (Flatten(init) + Last(gs)) + [e];
  }

  /** Every event of a group overlaps the one before it. */
  predicate Chained(g: seq<Event>)
  {
    forall j | 0 < j < |g| :: Overlap(g[j - 1], g[j])
  }

  /** The first event of a group does not overlap the last of the group
      before it. */
  predicate Separated(g: seq<Event>, h: seq<Event>)
    requires |g| > 0 && |h| > 0
  {
    !Overlap(Last(g), h[0])
  }

  /** `gs` cuts `es`, in order, into non-empty chained groups, each separated
      from the one before it. */
  predicate ChainPartition(gs: seq<seq<Event>>, es: seq<Event>)
  {
    && Flatten(gs) == es
    && AllNonEmpty(gs)
    && (forall k | 0 <= k < |gs| :: Chained(gs[k]))
    && (forall k | 0 < k < |gs| :: Separated(gs[k - 1], gs[k]))
  }

  /** Appending an event that overlaps the last member of the last group
      extends that group and keeps the chain partition. */
  lemma ExtendLastGroup(gs: seq<seq<Event>>, es: seq<Event>, e: Event)
    requires ChainPartition(gs, es) && gs != []
    requires Overlap(Last(Last(gs)), e)
    ensures ChainPartition(gs[..|gs| - 1] + [Last(gs) + [e]], es + [e])
  {
    var n := |gs| - 1;
    var g := Last(gs) + [e];
    var r := gs[..n] + [g];
    assert r[..n] == gs[..n];
    assert Flatten(r) == es + [e];
    assert Chained(g) by {
      assert Chained(gs[n]);
      forall j | 0 < j < |g| ensures Overlap(g[j - 1], g[j]) {
        if j < |g| - 1 {
          assert g[j - 1] == gs[n][j - 1] && g[j] == gs[n][j];
        }
      }
    }
    forall k | 0 <= k < |r| ensures Chained(r[k]) {
      if k < n {
        assert r[k] == gs[k];
      }
    }
    forall k | 0 < k < |r| ensures Separated(r[k - 1], r[k]) {
      assert r[k - 1] == gs[k - 1];
      assert Separated(gs[k - 1], gs[k]);
      assert r[k][0] == gs[k][0];
    }
  }

  /** Appending an event that does not overlap the last member of the last
      group (or to no group at all) opens a new group and keeps the chain
      partition. */
  lemma OpenGroup(gs: seq<seq<Event>>, es: seq<Event>, e: Event)
    requires ChainPartition(gs, es)
    requires gs != [] ==> !Overlap(Last(Last(gs)), e)
    ensures ChainPartition(gs + [[e]], es + [e])
  {
    var r := gs + [[e]];
    assert r[..|gs|] == gs;
    forall k | 0 <= k < |r| ensures Chained(r[k]) {
      if k < |gs| {
        assert r[k] == gs[k];
      }
    }
    forall k | 0 < k < |r| ensures Separated(r[k - 1], r[k]) {
      assert r[k - 1] == gs[k - 1];
      if k < |gs| {
        assert r[k] == gs[k];
      }
    }
  }

  /** The sweep's groups form a chain partition of the input. */
  lemma {:induction false} GroupsAreChainPartition(es: seq<Event>)
    ensures ChainPartition(Groups(es), es)
    decreases |es|
  {
    if es != [] {
      var init := es[..|es| - 1];
      GroupsAreChainPartition(init);
      var gs := Groups(init);
      var e := Last(es);
      assert es == init + [e];
      if gs != [] && Overlap(Last(Last(gs)), e) {
        ExtendLastGroup(gs, init, e);
      } else {
        OpenGroup(gs, init, e);
      }
    }
  }

  /** Removing the last event of a chain partition whose last group is a
      singleton leaves the groups before it, still a chain partition. */
  lemma DropSingletonGroup(gs: seq<seq<Event>>, es: seq<Event>)
    requires ChainPartition(gs, es) && gs != [] && |Last(gs)| == 1
    ensures es != [] && Last(gs) == [Last(es)]
    ensures ChainPartition(gs[..|gs| - 1], es[..|es| - 1])
    ensures |gs| > 1 ==> !Overlap(Last(gs[|gs| - 2]), Last(es))
  {
    var n := |gs| - 1;
    var r := gs[..n];
    assert es == Flatten(r) + gs[n];
    assert Flatten(r) == es[..|es| - 1];
    forall k | 0 < k < |r| ensures Separated(r[k - 1], r[k]) {
      assert r[k - 1] == gs[k - 1] && r[k] == gs[k];
    }
    if n > 0 {
      assert Separated(gs[n - 1], gs[n]);
    }
  }

  /** Removing the last event of a chain partition whose last group has two
      or more members shortens that group, still a chain partition, and the
      removed event overlaps the new last member. */
  lemma DropFromLastGroup(gs: seq<seq<Event>>, es: seq<Event>)
    requires ChainPartition(gs, es) && gs != [] && |Last(gs)| > 1
    ensures var n := |gs| - 1;
      && es != []
      && Last(gs) == gs[n][..|gs[n]| - 1] + [Last(es)]
      && ChainPartition(gs[..n] + [gs[n][..|gs[n]| - 1]], es[..|es| - 1])
      && Overlap(Last(gs[n][..|gs[n]| - 1]), Last(es))
  {
    var n := |gs| - 1;
    var g := gs[n];
    var h := g[..|g| - 1];
    var r := gs[..n] + [h];
    assert es == Flatten(gs[..n]) + g;
    assert r[..n] == gs[..n];
    assert Flatten(r) == Flatten(gs[..n]) + h;
    assert Flatten(r) == es[..|es| - 1];
    assert Chained(g);
    assert Chained(h) by {
      forall j | 0 < j < |h| ensures Overlap(h[j - 1], h[j]) {
        assert h[j - 1] == g[j - 1] && h[j] == g[j];
      }
    }
    forall k | 0 <= k < |r| ensures Chained(r[k]) {
      if k < n {
        assert r[k] == gs[k];
      }
    }
    forall k | 0 < k < |r| ensures Separated(r[k - 1], r[k]) {
      assert r[k - 1] == gs[k - 1];
      assert Separated(gs[k - 1], gs[k]);
      assert r[k][0] == gs[k][0];
    }
    assert g[|g| - 2] == Last(h);
    assert g == h + [Last(es)];
  }

  /** No other chain partition exists: the groups are determined by the
      overlap relation between neighbouring events alone. */
  lemma {:induction false} ChainPartitionIsGroups(gs: seq<seq<Event>>, es: seq<Event>)
    requires ChainPartition(gs, es)
    ensures gs == Groups(es)
    decreases |es|, 1
  {
    if gs == [] {
      assert es == [];
    } else if |Last(gs)| == 1 {
      var n := |gs| - 1;
      DropSingletonGroup(gs, es);
      ChainPartitionIsGroups(gs[..n], es[..|es| - 1]);
      assert gs == gs[..n] + [[Last(es)]];
    } else {
      LastGroupLonger(gs, es);
    }
  }

  /** The case of a last group with two or more members: the last event
      extended that group, so the cut without it is the sweep's grouping. */
  lemma {:induction false} LastGroupLonger(gs: seq<seq<Event>>, es: seq<Event>)
    requires ChainPartition(gs, es) && gs != [] && |Last(gs)| > 1
    ensures gs == Groups(es)
    decreases |es|, 0
  {
    var n := |gs| - 1;
    var init := es[..|es| - 1];
    DropFromLastGroup(gs, es);
    var h := gs[n][..|gs[n]| - 1];
    var gs' := gs[..n] + [h];
    ChainPartitionIsGroups(gs', init);
    assert gs'[..n] == gs[..n];
    assert gs == gs'[..n] + [Last(gs') + [Last(es)]];
  }
}
