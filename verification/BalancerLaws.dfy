/** Where the balancer's steps send a table, and what has happened by the time it is dropped. */
module BalancerLaws {
  import opened Codec
  import opened RingModel
  import opened Placement
  import M = Merge
  import SM = StoreModel
  import B = Balancer

  // Targets

  /** A primary copy goes to the primary fragment of the partition's owner, when there is an owner
      and it is another member; nothing else is moved by this step. */
  lemma MovePrimaryTargets(replicaCount: nat, from: B.Place, owners: Owners)
    ensures var ts := B.TargetsOf(replicaCount, from, B.MovePrimary(owners));
            && (ts.Some? <==> from.kind == B.Primary && owners != [] && owners[|owners| - 1].name != from.node)
            && (ts.Some? ==> |ts.value| == 1 && ts.value[0] == B.Place(owners[|owners| - 1].name, B.Primary, from.part, from.dmap))
  {
  }

  /** A backup copy on the partition's owner goes to the same member's primary fragment, when more
      than one replica is configured. */
  lemma PromoteTargets(replicaCount: nat, from: B.Place, owners: Owners)
    ensures var ts := B.TargetsOf(replicaCount, from, B.Promote(owners));
            && (ts.Some? <==> replicaCount > 1 && from.kind == B.Backup && owners != [] && owners[|owners| - 1].name == from.node)
            && (ts.Some? ==> |ts.value| == 1 && ts.value[0] == B.Place(from.node, B.Primary, from.part, from.dmap))
  {
  }

  function Least(a: int, b: int): int {
    if a <= b then a else b
  }

  /** A backup copy on a member that neither owns the partition nor is one of its last replica
      owners goes to the backup fragments of those, the newest first. */
  lemma MoveBackupTargets(replicaCount: nat, from: B.Place, primaryOwners: Owners, owners: Owners)
    ensures var ts := B.TargetsOf(replicaCount, from, B.MoveBackup(primaryOwners, owners));
            var k := Least(replicaCount - 1, |owners|);
            && (ts.Some? <==>
                  && from.kind == B.Backup && k > 0
                  && (primaryOwners == [] || primaryOwners[|primaryOwners| - 1].name != from.node)
                  && forall i :: |owners| - k <= i < |owners| ==> owners[i].name != from.node)
            && (ts.Some? ==> |ts.value| == k && forall i :: 0 <= i < k ==>
                  ts.value[i] == B.Place(owners[|owners| - 1 - i].name, B.Backup, from.part, from.dmap))
  {
    if replicaCount > 0 {
      B.LastOwnersAre(from.node, owners, replicaCount - 1);
      var ms := B.LastOwners(from.node, owners, replicaCount - 1);
      if ms.Some? {
        B.PlacesOfAt(ms.value, B.Backup, from);
      }
    }
  }

  // One step

  /** A delivery that fails ends the move and leaves the fragment it moves from as it is. */
  lemma FailedEnds(replicaCount: nat, s: B.State, id: nat, order: seq<M.Pair>, after: B.Fragment)
    requires B.Inv(s) && B.Enabled(replicaCount, s, B.Deliver(id, B.Failed(order, after)))
    ensures var r := B.Step(replicaCount, s, B.Deliver(id, B.Failed(order, after)));
            id !in r.moves && B.At(r, s.moves[id].from) == B.At(s, s.moves[id].from)
  {
    hide B.AllUnique, B.Apart, B.Backed, B.Kept, B.Merges;
    assert B.Targeted(s.moves[id]);
  }

  /** Any delivery can fail before anything is applied, or find its target gone. */
  lemma MayFail(replicaCount: nat, s: B.State, id: nat, after: B.Fragment)
    requires id in s.moves && s.moves[id].next < |s.moves[id].targets|
    ensures B.Enabled(replicaCount, s, B.Deliver(id, B.Failed([], after))) && B.Enabled(replicaCount, s, B.Deliver(id, B.Departed))
    ensures B.Step(replicaCount, s, B.Deliver(id, B.Failed([], after))).fragments == s.fragments
  {
  }

  /** A delivery that does not fail goes on to the next target; a target that had left is remembered,
      and one that merged the table is counted. */
  lemma DeliverGoesOn(replicaCount: nat, s: B.State, id: nat, d: B.Delivery)
    requires B.Enabled(replicaCount, s, B.Deliver(id, d)) && !d.Failed?
    ensures var m, r := s.moves[id], B.Step(replicaCount, s, B.Deliver(id, d));
            && id in r.moves && r.moves[id].next == m.next + 1
            && (r.moves[id].departed <==> m.departed || d.Departed?)
            && r.moves[id].merged == (if d.Merged? then m.merged + [m.targets[m.next]] else m.merged)
            && (r.moves[id].from, r.moves[id].index, r.moves[id].table, r.moves[id].targets) == (m.from, m.index, m.table, m.targets)
            && forall p :: B.At(r, p) == if d.Merged? && p == m.targets[m.next] then d.after else B.At(s, p)
  {
    hide B.Merges;
  }

  /** A move begins with the fragment's first live table and nothing done. */
  lemma BeginIs(replicaCount: nat, s: B.State, id: nat, from: B.Place, reason: B.Reason)
    requires B.Enabled(replicaCount, s, B.Begin(id, from, reason))
    ensures var r := B.Step(replicaCount, s, B.Begin(id, from, reason));
            && id in r.moves && r.fragments == s.fragments
            && var m := r.moves[id];
               && m.from == from && m.next == 0 && !m.departed && m.merged == [] && m.begun == s.clock < r.clock
               && m.index < |B.At(s, from)| && m.table == B.At(s, from)[m.index].entries && !B.At(s, from)[m.index].recycled
               && forall j :: 0 <= j < m.index ==> B.At(s, from)[j].recycled
  {
    hide B.TargetsOf, B.Locked;
    FirstLive(B.At(s, from));
  }

  lemma {:induction false} FirstLive(f: B.Fragment)
    requires B.ExportIndex(f).Some?
    ensures var i := B.ExportIndex(f).value;
            i < |f| && !f[i].recycled && forall j :: 0 <= j < i ==> f[j].recycled
  {
    if f[0].recycled {
      FirstLive(f[1..]);
    }
  }

  /** The end of a move drops the exported table, exactly when no target had left, and touches no
      other fragment. */
  lemma FinishIs(replicaCount: nat, s: B.State, id: nat)
    requires B.Inv(s) && B.Enabled(replicaCount, s, B.Finish(id))
    ensures var m, r := s.moves[id], B.Step(replicaCount, s, B.Finish(id));
            && id !in r.moves && (forall other :: other in s.moves && other != id ==> other in r.moves && r.moves[other] == s.moves[other])
            && m.index < |B.At(s, m.from)| && B.At(s, m.from)[m.index].entries == m.table
            && B.At(r, m.from) == (if m.departed then B.At(s, m.from) else SM.RemoveAt(B.At(s, m.from), m.index))
            && forall p :: p != m.from ==> B.At(r, p) == B.At(s, p)
  {
    hide B.AllUnique, B.Apart, B.Backed, B.Targeted;
    assert B.Kept(s, s.moves[id]);
  }

  /** So afterwards the fragment has none of the table's keys. */
  lemma FinishForgets(replicaCount: nat, s: B.State, id: nat, h: nat)
    requires B.Inv(s) && B.Enabled(replicaCount, s, B.Finish(id)) && !s.moves[id].departed && h in s.moves[id].table
    ensures h !in B.View(B.At(B.Step(replicaCount, s, B.Finish(id)), s.moves[id].from))
  {
    var m := s.moves[id];
    FinishIs(replicaCount, s, id);
    var f := B.At(s, m.from);
    assert B.Unique(f);
    Forgotten(f, m.index, h);
  }

  lemma {:induction false} Forgotten(f: B.Fragment, i: nat, h: nat)
    requires B.Unique(f) && i < |f| && h in f[i].entries
    ensures h !in B.View(SM.RemoveAt(f, i))
  {
    if i == 0 {
      assert SM.RemoveAt(f, i) == f[1..];
    } else {
      assert SM.RemoveAt(f, i)[1..] == SM.RemoveAt(f[1..], i - 1);
      B.UniqueView(f[1..], i - 1, h);
      Forgotten(f[1..], i - 1, h);
    }
  }

  // Runs

  lemma {:induction false} Unsnoc(replicaCount: nat, s: B.State, es: seq<B.Event>)
    requires B.Legal(replicaCount, s, es) && es != []
    ensures var n := |es| - 1;
            && B.Legal(replicaCount, s, es[..n]) && B.Enabled(replicaCount, B.After(replicaCount, s, es[..n]), es[n])
            && B.After(replicaCount, s, es) == B.Step(replicaCount, B.After(replicaCount, s, es[..n]), es[n])
    decreases |es|
  {
    hide B.Step, B.Enabled;
    var n := |es| - 1;
    if n == 0 {
      assert es[..0] == [] && es[1..] == [];
    } else {
      Unsnoc(replicaCount, B.Step(replicaCount, s, es[0]), es[1..]);
      assert es[1..][..n - 1] == es[..n][1..] && es[..n][0] == es[0] && es[1..][n - 1] == es[n];
    }
  }

  /** Event `k` was a full delivery of the move to `to`, which then had every version of the
      table, or a newer one. */
  ghost predicate Delivered(replicaCount: nat, s: B.State, es: seq<B.Event>, k: nat, id: nat, to: B.Place, table: map<nat, Entry>) {
    && k < |es| && es[k].Deliver? && es[k].id == id && es[k].delivery.Merged?
    && B.Legal(replicaCount, s, es[..k + 1])
    && forall h :: h in table ==> B.Has(B.At(B.After(replicaCount, s, es[..k + 1]), to), h, table[h].timestamp)
  }

  ghost predicate DeliveredSince(replicaCount: nat, s: B.State, es: seq<B.Event>, i: nat, id: nat, to: B.Place, table: map<nat, Entry>) {
    exists k :: i < k < |es| && Delivered(replicaCount, s, es, k, id, to, table)
  }

  /** The move began with event `i`, for that reason, and each place it counts as merged had a
      full delivery since. */
  ghost predicate Traced(replicaCount: nat, s: B.State, es: seq<B.Event>, i: nat, id: nat, m: B.Move) {
    && i < |es| && es[i].Begin? && es[i].id == id && es[i].from == m.from
    && B.TargetsOf(replicaCount, m.from, es[i].reason) == Some(m.targets)
    && forall t :: 0 <= t < |m.merged| ==> DeliveredSince(replicaCount, s, es, i, id, m.merged[t], m.table)
  }

  lemma DeliveredMore(replicaCount: nat, s: B.State, es: seq<B.Event>, e: B.Event, k: nat, id: nat, to: B.Place, table: map<nat, Entry>)
    requires Delivered(replicaCount, s, es, k, id, to, table)
    ensures Delivered(replicaCount, s, es + [e], k, id, to, table)
  {
    assert (es + [e])[..k + 1] == es[..k + 1] && (es + [e])[k] == es[k];
  }

  lemma SinceMore(replicaCount: nat, s: B.State, es: seq<B.Event>, e: B.Event, i: nat, id: nat, to: B.Place, table: map<nat, Entry>)
    requires DeliveredSince(replicaCount, s, es, i, id, to, table)
    ensures DeliveredSince(replicaCount, s, es + [e], i, id, to, table)
  {
    hide Delivered;
    var k :| i < k < |es| && Delivered(replicaCount, s, es, k, id, to, table);
    DeliveredMore(replicaCount, s, es, e, k, id, to, table);
  }

  /** The move as it was, one event later. */
  lemma TracedMore(replicaCount: nat, s: B.State, es: seq<B.Event>, e: B.Event, i: nat, id: nat, m: B.Move, m': B.Move)
    requires Traced(replicaCount, s, es, i, id, m)
    requires m'.from == m.from && m'.targets == m.targets && m'.table == m.table && m'.merged == m.merged
    ensures Traced(replicaCount, s, es + [e], i, id, m')
  {
    hide Delivered, DeliveredSince, B.TargetsOf;
    assert (es + [e])[i] == es[i];
    forall t | 0 <= t < |m'.merged|
      ensures DeliveredSince(replicaCount, s, es + [e], i, id, m'.merged[t], m'.table)
    {
      SinceMore(replicaCount, s, es, e, i, id, m.merged[t], m.table);
    }
  }

  /** A full delivery adds its target. */
  lemma TracedMerged(replicaCount: nat, s: B.State, es: seq<B.Event>, e: B.Event, i: nat, id: nat, m: B.Move, m': B.Move, to: B.Place)
    requires Traced(replicaCount, s, es, i, id, m) && Delivered(replicaCount, s, es + [e], |es|, id, to, m.table)
    requires m'.from == m.from && m'.targets == m.targets && m'.table == m.table && m'.merged == m.merged + [to]
    ensures Traced(replicaCount, s, es + [e], i, id, m')
  {
    TracedMore(replicaCount, s, es, e, i, id, m, m);
    hide Delivered, B.TargetsOf;
    forall t | 0 <= t < |m'.merged|
      ensures DeliveredSince(replicaCount, s, es + [e], i, id, m'.merged[t], m'.table)
    {
      if t < |m.merged| {
        assert m'.merged[t] == m.merged[t];
      } else {
        assert m'.merged[t] == to && i < |es| < |es + [e]|;
      }
    }
  }

  /** What one event does to a move. */
  lemma StepMove(replicaCount: nat, s: B.State, e: B.Event, id: nat)
    requires B.Enabled(replicaCount, s, e) && id in B.Step(replicaCount, s, e).moves
    ensures var r := B.Step(replicaCount, s, e);
            if e.Begin? && e.id == id then
              id !in s.moves && r.moves[id].from == e.from && r.moves[id].merged == []
              && B.TargetsOf(replicaCount, e.from, e.reason) == Some(r.moves[id].targets)
            else if e.Deliver? && e.id == id && e.delivery.Merged? then
              && id in s.moves && s.moves[id].next < |s.moves[id].targets|
              && var m := s.moves[id]; var to := m.targets[m.next];
                 && r.moves[id] == m.(next := m.next + 1, merged := m.merged + [to])
                 && M.Ranges(m.table, e.delivery.order) && B.At(r, to) == e.delivery.after
                 && B.View(e.delivery.after) == M.MergeAll(B.View(B.At(s, to)), e.delivery.order)
            else
              id in s.moves && var m, m' := s.moves[id], r.moves[id];
              m'.from == m.from && m'.targets == m.targets && m'.table == m.table && m'.merged == m.merged
  {
    hide B.TargetsOf, B.Locked, B.Unique, B.View, M.MergeAll;
  }

  lemma MergedHas(m: B.Move, order: seq<M.Pair>, before: B.Fragment, after: B.Fragment, h: nat)
    requires M.Ranges(m.table, order) && B.View(after) == M.MergeAll(B.View(before), order) && h in m.table
    ensures B.Has(after, h, m.table[h].timestamp)
  {
    B.MergeGrows(before, order, after);
    var i :| 0 <= i < |order| && order[i] == M.Pair(h, m.table[h]);
  }

  lemma {:induction false} RunTraced(replicaCount: nat, s: B.State, es: seq<B.Event>, id: nat) returns (i: nat)
    requires B.Quiet(s) && B.Legal(replicaCount, s, es) && id in B.After(replicaCount, s, es).moves
    ensures Traced(replicaCount, s, es, i, id, B.After(replicaCount, s, es).moves[id])
    decreases |es|
  {
    if es == [] {
      assert false;
    }
    hide B.Step, B.Enabled, Traced, B.Legal, B.After, Delivered;
    var n := |es| - 1;
    Unsnoc(replicaCount, s, es);
    var r, e := B.After(replicaCount, s, es[..n]), es[n];
    assert es[..n] + [e] == es && es[..n + 1] == es;
    StepMove(replicaCount, r, e, id);
    if e.Begin? && e.id == id {
      i := n;
      TracedBegun(replicaCount, s, es, id, B.After(replicaCount, s, es).moves[id]);
    } else {
      i := RunTraced(replicaCount, s, es[..n], id);
      var m, m' := r.moves[id], B.After(replicaCount, s, es).moves[id];
      if e.Deliver? && e.id == id && e.delivery.Merged? {
        var to := m.targets[m.next];
        forall h | h in m.table
          ensures B.Has(B.At(B.After(replicaCount, s, es), to), h, m.table[h].timestamp)
        {
          MergedHas(m, e.delivery.order, B.At(r, to), e.delivery.after, h);
        }
        NowDelivered(replicaCount, s, es, id, to, m.table);
        TracedMerged(replicaCount, s, es[..n], e, i, id, m, m', to);
      } else {
        TracedMore(replicaCount, s, es[..n], e, i, id, m, m');
      }
    }
  }

  lemma NowDelivered(replicaCount: nat, s: B.State, es: seq<B.Event>, id: nat, to: B.Place, table: map<nat, Entry>)
    requires es != [] && B.Legal(replicaCount, s, es)
    requires var e := es[|es| - 1]; e.Deliver? && e.id == id && e.delivery.Merged?
    requires forall h :: h in table ==> B.Has(B.At(B.After(replicaCount, s, es), to), h, table[h].timestamp)
    ensures Delivered(replicaCount, s, es, |es| - 1, id, to, table)
  {
    assert es[..|es| - 1 + 1] == es;
  }

  lemma TracedBegun(replicaCount: nat, s: B.State, es: seq<B.Event>, id: nat, m: B.Move)
    requires es != [] && m.merged == []
    requires var e := es[|es| - 1]; e.Begin? && e.id == id && e.from == m.from && B.TargetsOf(replicaCount, m.from, e.reason) == Some(m.targets)
    ensures Traced(replicaCount, s, es, |es| - 1, id, m)
  {
    hide B.TargetsOf;
  }

  /** When a move ends with its drop, then since it began every target that its reason gives had a
      full delivery of the table. */
  lemma DroppedAfterDelivery(replicaCount: nat, s: B.State, es: seq<B.Event>, id: nat) returns (i: nat)
    requires B.Quiet(s) && B.Legal(replicaCount, s, es) && B.Lossless(replicaCount, s, es)
    requires B.Enabled(replicaCount, B.After(replicaCount, s, es), B.Finish(id)) && !B.After(replicaCount, s, es).moves[id].departed
    ensures var m := B.After(replicaCount, s, es).moves[id];
            && i < |es| && es[i].Begin? && es[i].id == id && es[i].from == m.from
            && B.TargetsOf(replicaCount, m.from, es[i].reason) == Some(m.targets)
            && forall t :: 0 <= t < |m.targets| ==> DeliveredSince(replicaCount, s, es, i, id, m.targets[t], m.table)
  {
    hide B.Legal, B.After, B.Lossless, B.TargetsOf, DeliveredSince;
    i := RunTraced(replicaCount, s, es, id);
    B.QuietInv(s);
    B.RunConserves(replicaCount, s, es);
    var m := B.After(replicaCount, s, es).moves[id];
    assert B.Targeted(m) && m.targets[..m.next] == m.targets;
  }

  /** So a primary copy is dropped only after the owner's primary fragment had all of it. */
  lemma PrimaryMoved(replicaCount: nat, s: B.State, es: seq<B.Event>, id: nat) returns (i: nat)
    requires B.Quiet(s) && B.Legal(replicaCount, s, es) && B.Lossless(replicaCount, s, es)
    requires B.Enabled(replicaCount, B.After(replicaCount, s, es), B.Finish(id)) && !B.After(replicaCount, s, es).moves[id].departed
    ensures i < |es| && es[i].Begin? && es[i].id == id && es[i].from == B.After(replicaCount, s, es).moves[id].from
    ensures var m := B.After(replicaCount, s, es).moves[id];
            es[i].reason.MovePrimary? ==>
              var owners := es[i].reason.primaryOwners;
              && m.from.kind == B.Primary && owners != []
              && DeliveredSince(replicaCount, s, es, i, id, B.Place(owners[|owners| - 1].name, B.Primary, m.from.part, m.from.dmap), m.table)
  {
    hide B.Legal, B.After, B.Lossless, B.TargetsOf, DeliveredSince;
    i := DroppedAfterDelivery(replicaCount, s, es, id);
    var m := B.After(replicaCount, s, es).moves[id];
    if es[i].reason.MovePrimary? {
      var owners := es[i].reason.primaryOwners;
      MovePrimaryTargets(replicaCount, m.from, owners);
      assert m.targets[0] == B.Place(owners[|owners| - 1].name, B.Primary, m.from.part, m.from.dmap);
    }
  }
}
