/** The owner lists of a partition with the ring's own answer: what the coordinator reads off a
    settled ring is what the placement of owners needs. */
module RingPlacement {
  import opened Codec
  import opened RingModel
  import opened RingClass
  import opened RingLoads
  import opened Placement

  ghost predicate IdsDistinct(members: map<Name, Member>) {
    forall n, m :: n in members && m in members && members[n].id == members[m].id ==> n == m
  }

  /** A settled ring with members, no two of one name hash or identity. */
  ghost predicate Ready(cfg: Config, s: Ring) {
    Settled(cfg, s) && s.members != map[] && NamesDistinct(cfg, s.members.Keys) && IdsDistinct(s.members)
  }

  /** The partition's owner and its successors, as many as the replicas or the members. */
  ghost predicate RingAnswer(cfg: Config, s: Ring, partID: nat, replicaCount: nat, closest: seq<Member>) {
    && partID in s.partitions
    && Closest(cfg, s.members, s.partitions[partID], closest)
    && |closest| == if replicaCount <= |s.members| then replicaCount else |s.members|
  }

  /** Every partition of a settled ring is owned by a member. */
  lemma OwnerCurrent(cfg: Config, s: Ring, partID: nat)
    requires Ready(cfg, s) && partID < cfg.partitionCount
    ensures partID in s.partitions && IsCurrent(s.members, s.partitions[partID])
    ensures forall n :: n in s.members ==> s.members[n].name == n
  {
    hide Distinct, NamesDistinct, AverageLoad, Total, Counted;
    AssignFair(cfg, s, cfg.partitionCount);
  }

  lemma RingRoundOk(cfg: Config, s: Ring, partID: nat, replicaCount: nat, r: Round)
    requires Ready(cfg, s) && RingAnswer(cfg, s, partID, replicaCount, r.closest)
    requires r.replicas <==> replicaCount > 1
    ensures RoundOk(r)
  {
    hide Settled, NamesDistinct, Successor;
    ClosestNoDuplicates(s.members, r.closest);
  }

  /** One partition of fillRoutingTable: whatever the recorded owners and the answers to the
      probes, the route ends in the ring's owner and its successors. */
  method Recompute(c: Consistent, route: Route, index: map<Name, Member>, primary: Counts, backup: Counts, partID: nat, replicaCount: nat)
    returns (r: Route, ghost closest: seq<Member>)
    requires Ready(c.config, c.State()) && partID < c.config.partitionCount && replicaCount > 0
    requires NoDuplicates(route.owners) && NoDuplicates(route.backups)
    ensures RingAnswer(c.config, c.State(), partID, replicaCount, closest)
    ensures r == Compute(route, Round(index, primary, backup, replicaCount > 1, closest))
    ensures Shaped(r, closest)
  {
    hide Settled, NamesDistinct, IdsDistinct, Closest, Shaped, NoDuplicates, Filled, Live, MoveLast, MoveAllLast;
    OwnerCurrent(c.config, c.State(), partID);
    var live := LiveOwners(route.owners, index);
    var owners := PlacePrimaryOwner(live, primary, c.partitions[partID]);
    var replicas, ok := GetReplicaOwners(c, partID, replicaCount);
    closest := replicas.value;
    ClosestFirst(c.config, c.members, c.partitions[partID], closest);
    var backups := [];
    if replicaCount > 1 {
      var liveBackups := LiveOwners(route.backups, index);
      backups := PlaceBackupOwners(liveBackups, backup, replicas.value);
    }
    r := Route(owners, backups);
    ghost var round := Round(index, primary, backup, replicaCount > 1, closest);
    RingRoundOk(c.config, c.State(), partID, replicaCount, round);
    ComputeShape(route, round);
  }

  lemma ClosestFirst(cfg: Config, members: map<Name, Member>, owner: Member, r: seq<Member>)
    requires Closest(cfg, members, owner, r)
    ensures r != [] && r[0] == owner
  {
  }

  // Runs

  /** Each recomputation reads the ring of its moment. */
  ghost predicate FromRings(cfg: Config, partID: nat, replicaCount: nat, rings: seq<Ring>, es: seq<Event>) {
    && |rings| == |es|
    && forall i :: 0 <= i < |es| && es[i].Recompute? ==> OnRing(cfg, partID, replicaCount, rings[i], es[i].round)
  }

  ghost predicate OnRing(cfg: Config, partID: nat, replicaCount: nat, s: Ring, r: Round) {
    Ready(cfg, s) && RingAnswer(cfg, s, partID, replicaCount, r.closest) && (r.replicas <==> replicaCount > 1)
  }

  /** The recomputation at `k` is the last one. */
  predicate LastAt(es: seq<Event>, k: nat) {
    k < |es| && es[k].Recompute? && forall j :: k < j < |es| ==> es[j].LeftOver?
  }

  lemma {:induction false} DesignatedAt(es: seq<Event>, k: nat)
    requires LastAt(es, k)
    ensures Designated(es) == es[k].round.closest
    decreases |es|
  {
    if k < |es| - 1 {
      DesignatedAt(es[..|es| - 1], k);
    }
  }

  /** Over any recomputations, on rings that change between them, and left-over reports: the
      lists stay duplicate-free, the owners end in the owner of the last ring read, and the
      backups in its successors. */
  lemma RingRunShape(cfg: Config, partID: nat, replicaCount: nat, rings: seq<Ring>, route: Route, es: seq<Event>, k: nat)
    requires FromRings(cfg, partID, replicaCount, rings, es) && LastAt(es, k)
    requires NoDuplicates(route.owners) && NoDuplicates(route.backups)
    ensures Allowed(es)
    ensures var r, closest := AfterAll(route, es), es[k].round.closest;
            && NoDuplicates(r.owners) && NoDuplicates(r.backups)
            && r.owners != [] && r.owners[|r.owners| - 1] == rings[k].partitions[partID]
            && EndsIn(r.backups, closest[1..]) && Closest(cfg, rings[k].members, rings[k].partitions[partID], closest)
  {
    hide Ready, RingAnswer, RoundOk, NoDuplicates, AfterAll, Designated, Closest;
    forall i | 0 <= i < |es| && es[i].Recompute?
      ensures RoundOk(es[i].round)
    {
      RingRoundOk(cfg, rings[i], partID, replicaCount, es[i].round);
    }
    RunShape(route, es);
    DesignatedAt(es, k);
    assert OnRing(cfg, partID, replicaCount, rings[k], es[k].round);
    AnswerParts(cfg, rings[k], partID, replicaCount, es[k].round.closest);
  }

  lemma AnswerParts(cfg: Config, s: Ring, partID: nat, replicaCount: nat, closest: seq<Member>)
    requires RingAnswer(cfg, s, partID, replicaCount, closest)
    ensures partID in s.partitions && Closest(cfg, s.members, s.partitions[partID], closest)
    ensures closest != [] && closest[0] == s.partitions[partID]
  {
  }
}
