/** Bounded loads: no panic, one owner per partition, no member over the average load; and
    a ring that depends only on who is in it. */
module RingLoads {
  import opened Codec
  import opened RingModel

  // Adding up loads

  ghost function Total(names: set<Name>, loads: map<Name, nat>): nat {
    if names == {} then 0
    else
      var n :| n in names;
      Load(loads, n) + Total(names - {n}, loads)
  }

  lemma {:induction false} TotalSplit(names: set<Name>, loads: map<Name, nat>, x: Name)
    requires x in names
    ensures Total(names, loads) == Load(loads, x) + Total(names - {x}, loads)
  {
    hide Load;
    var n :| n in names && Total(names, loads) == Load(loads, n) + Total(names - {n}, loads);
    if n != x {
      TotalSplit(names - {n}, loads, x);
      TotalSplit(names - {x}, loads, n);
      assert names - {n} - {x} == names - {x} - {n};
    }
  }

  lemma {:induction false} TotalSame(names: set<Name>, loads: map<Name, nat>, loads': map<Name, nat>)
    requires forall n :: n in names ==> Load(loads, n) == Load(loads', n)
    ensures Total(names, loads) == Total(names, loads')
  {
    if names != {} {
      var n :| n in names;
      TotalSplit(names, loads, n);
      TotalSplit(names, loads', n);
      TotalSame(names - {n}, loads, loads');
    }
  }

  lemma TotalBump(names: set<Name>, loads: map<Name, nat>, n: Name)
    requires n in names
    ensures Total(names, loads[n := Load(loads, n) + 1]) == Total(names, loads) + 1
  {
    var loads' := loads[n := Load(loads, n) + 1];
    TotalSplit(names, loads, n);
    TotalSplit(names, loads', n);
    TotalSame(names - {n}, loads, loads');
  }

  lemma Succ(k: nat, x: int)
    ensures (k + 1) * x == k * x + x
  {
  }

  lemma {:induction false} TotalAtLeast(names: set<Name>, loads: map<Name, nat>, avg: int)
    requires forall n :: n in names ==> Load(loads, n) >= avg
    ensures Total(names, loads) >= |names| * avg
  {
    if names == {} {
      assert |names| * avg == 0;
    } else {
      hide Load, Total;
      var n :| n in names;
      TotalSplit(names, loads, n);
      TotalAtLeast(names - {n}, loads, avg);
      Succ(|names - {n}|, avg);
    }
  }

  lemma {:induction false} TotalAtMost(names: set<Name>, loads: map<Name, nat>, avg: int)
    requires forall n :: n in names ==> Load(loads, n) <= avg
    ensures Total(names, loads) <= |names| * avg
  {
    if names == {} {
      assert |names| * avg == 0;
    } else {
      hide Load, Total;
      var n :| n in names;
      TotalSplit(names, loads, n);
      TotalAtMost(names - {n}, loads, avg);
      Succ(|names - {n}|, avg);
    }
  }

  lemma TotalBounds(names: set<Name>, loads: map<Name, nat>, avg: int)
    ensures (forall n :: n in names ==> Load(loads, n) >= avg) ==> Total(names, loads) >= |names| * avg
    ensures (forall n :: n in names ==> Load(loads, n) <= avg) ==> Total(names, loads) <= |names| * avg
  {
    hide Load, Total;
    if forall n :: n in names ==> Load(loads, n) >= avg {
      TotalAtLeast(names, loads, avg);
    }
    if forall n :: n in names ==> Load(loads, n) <= avg {
      TotalAtMost(names, loads, avg);
    }
  }

  // The average load is enough

  lemma CeilAbove(x: real)
    ensures x <= Ceil(x) as real < x + 1.0
  {
  }

  lemma ScaleUp(x: real, y: real, m: real)
    requires x <= y && 0.0 <= m
    ensures x * m <= y * m
  {
  }

  lemma ShareTimes(p: real, m: real)
    requires m > 0.0
    ensures (p / m) * m == p
  {
  }

  lemma NotLess(share: real, load: real)
    requires share >= 0.0 && load >= 1.0
    ensures share <= share * load
  {
    ScaleUp(1.0, load, share);
  }

  lemma {:induction false} ProductReal(m: nat, x: int)
    ensures (m * x) as real == x as real * m as real
  {
    if m > 0 {
      ProductReal(m - 1, x);
      Succ(m - 1, x);
      RealStep(x as real, (m - 1) as real);
    }
  }

  lemma RealStep(x: real, k: real)
    ensures x * k + x == x * (k + 1.0)
  {
  }

  lemma AverageEnough(cfg: Config, m: nat)
    requires m > 0 && cfg.load >= 1.0
    ensures cfg.partitionCount <= m * AverageLoad(cfg, m)
  {
    var p, share := cfg.partitionCount as real, cfg.partitionCount as real / m as real;
    var avg := AverageLoad(cfg, m);
    ShareTimes(p, m as real);
    CeilAbove(share * cfg.load);
    assert avg as real >= share * cfg.load;
    hide AverageLoad, Ceil;
    NotLess(share, cfg.load);
    ScaleUp(share, avg as real, m as real);
    ProductReal(m, avg);
  }

  lemma ShareLoad(p: real, m: real, load: real)
    requires m > 0.0
    ensures p / m * load == p * load / m
  {
  }

  /** The average load is P * L / M, rounded up. */
  lemma AverageLoadIs(cfg: Config, m: nat)
    requires m > 0
    ensures var exact := cfg.partitionCount as real * cfg.load / m as real;
            AverageLoad(cfg, m) as real - 1.0 < exact <= AverageLoad(cfg, m) as real
  {
    ShareLoad(cfg.partitionCount as real, m as real, cfg.load);
  }

  // Probing

  /** Steps clockwise from `idx` to `i`. */
  function Distance(idx: nat, i: nat, n: nat): int {
    if i >= idx then i - idx else i - idx + n
  }

  predicate RoomAt(s: Ring, loads: map<Name, nat>, avg: int, i: nat) {
    i < |s.sortedSet| && s.sortedSet[i] in s.ring && Load(loads, s.ring[s.sortedSet[i]].name) + 1 <= avg
  }

  ghost predicate Backed(s: Ring) {
    forall i :: 0 <= i < |s.sortedSet| ==> s.sortedSet[i] in s.ring
  }

  /** The probe finds the nearest point with room, if there is one within reach. */
  lemma {:induction false} ProbeNearest(s: Ring, loads: map<Name, nat>, avg: int, idx: nat, left: nat) returns (found: nat)
    requires Backed(s) && idx < |s.sortedSet| && left <= |s.sortedSet|
    ensures var r := Probe(s, loads, avg, idx, left);
            r.Some? ==> RoomAt(s, loads, avg, found) && s.ring[s.sortedSet[found]] == r.value
    ensures Probe(s, loads, avg, idx, left).Some? ==> Distance(idx, found, |s.sortedSet|) < left
    ensures var r := Probe(s, loads, avg, idx, left);
            r.Some? ==> forall j :: RoomAt(s, loads, avg, j) ==> Distance(idx, found, |s.sortedSet|) <= Distance(idx, j, |s.sortedSet|)
    ensures var r := Probe(s, loads, avg, idx, left);
            r.None? ==> forall j :: RoomAt(s, loads, avg, j) ==> left <= Distance(idx, j, |s.sortedSet|)
    decreases left
  {
    if left > 0 && !RoomAt(s, loads, avg, idx) {
      found := ProbeNearest(s, loads, avg, Next(idx, |s.sortedSet|), left - 1);
    } else {
      found := idx;
    }
  }

  // One partition

  ghost predicate Sound(cfg: Config, s: Ring) {
    && Canonical(cfg, s)
    && Distinct(cfg, s.members.Keys)
    && s.members != map[]
    && cfg.replicationFactor >= 2
  }

  /** A point leads to a member. */
  lemma PointsLead(cfg: Config, s: Ring, i: nat)
    requires Canonical(cfg, s) && i < |s.sortedSet|
    ensures s.sortedSet[i] in s.ring
    ensures var m := s.ring[s.sortedSet[i]]; m.name in s.members && s.members[m.name] == m
  {
    hide Sorted, Point, Distinct;
    var h := s.sortedSet[i];
    ElementsOf(s.sortedSet, PointSet(cfg, s.members.Keys));
    assert h in PointSet(cfg, s.members.Keys);
    var n, k :| n in s.members && 0 <= k < cfg.replicationFactor && Point(cfg, n, k) == h;
  }

  lemma IsBacked(cfg: Config, s: Ring)
    requires Canonical(cfg, s)
    ensures Backed(s)
  {
    hide Canonical;
    forall i | 0 <= i < |s.sortedSet|
      ensures s.sortedSet[i] in s.ring
    {
      PointsLead(cfg, s, i);
    }
  }

  lemma PointAt(cfg: Config, s: Ring, name: Name, k: nat) returns (i: nat)
    requires Canonical(cfg, s) && name in s.members && k < cfg.replicationFactor
    ensures i < |s.sortedSet| && s.sortedSet[i] == Point(cfg, name, k)
    ensures s.sortedSet[i] in s.ring && s.ring[s.sortedSet[i]] == s.members[name]
  {
    hide Sorted, Point, Distinct;
    PointIn(cfg, s.members.Keys, name, k);
    ElementsOf(s.sortedSet, PointSet(cfg, s.members.Keys));
    i :| 0 <= i < |s.sortedSet| && s.sortedSet[i] == Point(cfg, name, k);
  }

  /** The two points of a member with room are not both the point the probe leaves out. */
  lemma RoomReached(cfg: Config, s: Ring, loads: map<Name, nat>, partID: nat, name: Name)
    requires Sound(cfg, s) && name in s.members
    requires Load(loads, name) + 1 <= AverageLoad(cfg, |s.members|)
    ensures Home(cfg, s, loads, partID).Some?
  {
    hide Canonical, AverageLoad, Point, StartOf;
    IsBacked(cfg, s);
    var i := PointAt(cfg, s, name, 0);
    var j := PointAt(cfg, s, name, 1);
    assert Point(cfg, name, 0) != Point(cfg, name, 1);
    assert i != j;
    var avg, idx := AverageLoad(cfg, |s.members|), StartOf(cfg, s.sortedSet, partID);
    NameOf(cfg, s, name);
    assert RoomAt(s, loads, avg, i) && RoomAt(s, loads, avg, j);
    var found := ProbeNearest(s, loads, avg, idx, |s.sortedSet| - 1);
  }

  lemma NameOf(cfg: Config, s: Ring, name: Name)
    requires Canonical(cfg, s) && name in s.members
    ensures s.members[name].name == name
  {
  }

  /** The new owner is a member with room, at the nearest point with room. */
  lemma HomeHasRoom(cfg: Config, s: Ring, loads: map<Name, nat>, partID: nat)
    requires Canonical(cfg, s) && Home(cfg, s, loads, partID).Some?
    ensures var m := Home(cfg, s, loads, partID).value;
            m.name in s.members && s.members[m.name] == m && Load(loads, m.name) + 1 <= AverageLoad(cfg, |s.members|)
  {
    hide Canonical, AverageLoad, StartOf;
    IsBacked(cfg, s);
    var avg, idx := AverageLoad(cfg, |s.members|), StartOf(cfg, s.sortedSet, partID);
    var found := ProbeNearest(s, loads, avg, idx, |s.sortedSet| - 1);
    PointsLead(cfg, s, found);
  }

  /** Clockwise from the partition's hash, the owner's point is the first with room. */
  lemma HomeNearest(cfg: Config, s: Ring, loads: map<Name, nat>, partID: nat) returns (start: nat, found: nat)
    requires Canonical(cfg, s) && Home(cfg, s, loads, partID).Some?
    ensures start < |s.sortedSet| && found < |s.sortedSet|
    ensures s.sortedSet[start] >= PartitionKey(cfg, partID) || (start == 0 && forall j :: 0 <= j < |s.sortedSet| ==> s.sortedSet[j] < PartitionKey(cfg, partID))
    ensures forall j :: 0 <= j < start ==> s.sortedSet[j] < PartitionKey(cfg, partID)
    ensures s.sortedSet[found] in s.ring && s.ring[s.sortedSet[found]] == Home(cfg, s, loads, partID).value
    ensures forall j :: RoomAt(s, loads, AverageLoad(cfg, |s.members|), j) ==>
              Distance(start, found, |s.sortedSet|) <= Distance(start, j, |s.sortedSet|)
  {
    hide Canonical, AverageLoad, PartitionKey;
    IsBacked(cfg, s);
    start := StartOf(cfg, s.sortedSet, partID);
    found := ProbeNearest(s, loads, AverageLoad(cfg, |s.members|), start, |s.sortedSet| - 1);
  }

  // All partitions

  ghost function OwnedBy(partitions: map<nat, Member>, name: Name): set<nat> {
    set p | p in partitions && partitions[p].name == name
  }

  ghost predicate Counted(a: Assignment) {
    forall n :: Load(a.loads, n) == |OwnedBy(a.partitions, n)|
  }

  ghost predicate Bounded(a: Assignment, avg: int) {
    forall n :: n in a.loads ==> a.loads[n] <= avg
  }

  /** Partitions 0 to `n` each have one owner, a member. */
  ghost predicate Owned(s: Ring, n: nat, a: Assignment) {
    && (forall p :: p in a.partitions <==> 0 <= p < n)
    && (forall p :: p in a.partitions ==> IsMember(s, a.partitions[p]))
  }

  predicate IsMember(s: Ring, m: Member) {
    m.name in s.members && s.members[m.name] == m
  }

  ghost predicate Fair(cfg: Config, s: Ring, n: nat, a: Assignment) {
    && Owned(s, n, a)
    && Counted(a)
    && Bounded(a, AverageLoad(cfg, |s.members|))
    && Total(s.members.Keys, a.loads) == n
  }

  lemma GiveCounted(a: Assignment, p: nat, m: Member)
    requires Counted(a) && p !in a.partitions
    ensures Counted(Give(a, p, m))
  {
    var b := Give(a, p, m);
    forall n
      ensures Load(b.loads, n) == |OwnedBy(b.partitions, n)|
    {
      if n == m.name {
        assert OwnedBy(b.partitions, n) == OwnedBy(a.partitions, n) + {p};
      } else {
        assert OwnedBy(b.partitions, n) == OwnedBy(a.partitions, n);
      }
    }
  }

  lemma GiveFair(cfg: Config, s: Ring, n: nat, a: Assignment, m: Member)
    requires Fair(cfg, s, n, a) && IsMember(s, m) && Load(a.loads, m.name) + 1 <= AverageLoad(cfg, |s.members|)
    ensures Fair(cfg, s, n + 1, Give(a, n, m))
  {
    hide AverageLoad, Counted, Load;
    GiveCounted(a, n, m);
    TotalBump(s.members.Keys, a.loads, m.name);
  }

  /** While fewer partitions are placed than the members can take, someone has room. */
  lemma SomeRoom(cfg: Config, s: Ring, loads: map<Name, nat>) returns (name: Name)
    requires s.members != map[] && Total(s.members.Keys, loads) < |s.members| * AverageLoad(cfg, |s.members|)
    ensures name in s.members && Load(loads, name) + 1 <= AverageLoad(cfg, |s.members|)
  {
    hide AverageLoad, Total;
    TotalBounds(s.members.Keys, loads, AverageLoad(cfg, |s.members|));
    assert |s.members.Keys| == |s.members|;
    name :| name in s.members && Load(loads, name) < AverageLoad(cfg, |s.members|);
  }

  lemma {:induction false} AssignFair(cfg: Config, s: Ring, n: nat)
    requires Canonical(cfg, s)
    ensures var r := Assign(cfg, s, n); r.Some? ==> Fair(cfg, s, n, r.value)
    ensures Sound(cfg, s) && n <= |s.members| * AverageLoad(cfg, |s.members|) ==> Assign(cfg, s, n).Some?
  {
    hide Canonical, AverageLoad, Fair, Home;
    if n == 0 {
      NothingFair(cfg, s);
    } else {
      AssignFair(cfg, s, n - 1);
      if Assign(cfg, s, n - 1).Some? {
        var a := Assign(cfg, s, n - 1).value;
        if Sound(cfg, s) && n <= |s.members| * AverageLoad(cfg, |s.members|) {
          FairTotal(cfg, s, n - 1, a);
          var name := SomeRoom(cfg, s, a.loads);
          RoomReached(cfg, s, a.loads, n - 1, name);
        }
        if Home(cfg, s, a.loads, n - 1).Some? {
          HomeHasRoom(cfg, s, a.loads, n - 1);
          GiveFair(cfg, s, n - 1, a, Home(cfg, s, a.loads, n - 1).value);
        }
      }
    }
  }

  lemma FairTotal(cfg: Config, s: Ring, n: nat, a: Assignment)
    requires Fair(cfg, s, n, a)
    ensures Total(s.members.Keys, a.loads) == n
  {
  }

  lemma NothingFair(cfg: Config, s: Ring)
    ensures Fair(cfg, s, 0, Assignment(map[], map[]))
  {
    var a := Assignment(map[], map[]);
    forall n
      ensures Load(a.loads, n) == |OwnedBy(a.partitions, n)|
    {
      assert OwnedBy(a.partitions, n) == {};
    }
    TotalBounds(s.members.Keys, a.loads, 0);
  }

  /** With distinct points, two or more a member, the partitions can be placed exactly when
      the members' average loads add up to at least the partition count. */
  lemma PlacesIff(cfg: Config, s: Ring)
    requires Sound(cfg, s)
    ensures Distribute(cfg, s).ok <==> cfg.partitionCount <= |s.members| * AverageLoad(cfg, |s.members|)
  {
    hide Canonical, AverageLoad, Total;
    AssignFair(cfg, s, cfg.partitionCount);
    if Distribute(cfg, s).ok {
      var a := Assign(cfg, s, cfg.partitionCount).value;
      FairBounds(cfg, s, cfg.partitionCount, a);
      TotalBounds(s.members.Keys, a.loads, AverageLoad(cfg, |s.members|));
      assert |s.members.Keys| == |s.members|;
    }
  }

  lemma FairBounds(cfg: Config, s: Ring, n: nat, a: Assignment)
    requires Fair(cfg, s, n, a) && n == cfg.partitionCount && s.members != map[]
    ensures forall m :: m in s.members ==> Load(a.loads, m) <= AverageLoad(cfg, |s.members|)
  {
    var avg := AverageLoad(cfg, |s.members|);
    if avg < 0 {
      hide AverageLoad;
      TotalBounds(s.members.Keys, a.loads, 0);
      assert n == 0;
      NoPartitions(cfg, |s.members|);
    }
  }

  lemma NoPartitions(cfg: Config, m: nat)
    requires cfg.partitionCount == 0
    ensures AverageLoad(cfg, m) == 0
  {
    if m > 0 {
      assert 0.0 / m as real == 0.0;
    }
  }

  /** Every partition has exactly one owner, a member; each member's load is the number of
      partitions it owns and at most the average load. */
  lemma NeverPanics(cfg: Config, s: Ring)
    requires Sound(cfg, s) && cfg.load >= 1.0
    ensures var r := Distribute(cfg, s); r.ok && r.state.sortedSet == s.sortedSet && r.state.members == s.members
    ensures var r := Distribute(cfg, s).state; forall p :: p in r.partitions <==> 0 <= p < cfg.partitionCount
    ensures var r := Distribute(cfg, s).state; forall p :: p in r.partitions ==> IsMember(s, r.partitions[p])
    ensures var r := Distribute(cfg, s).state;
            forall n :: n in s.members ==> Load(r.loads, n) == |OwnedBy(r.partitions, n)| <= AverageLoad(cfg, |s.members|)
    ensures var r := Distribute(cfg, s).state;
            forall n :: n in s.members ==>
              |OwnedBy(r.partitions, n)| as real < cfg.partitionCount as real * cfg.load / |s.members| as real + 1.0
  {
    hide Sound, AverageLoad, IsMember;
    SoundParts(cfg, s);
    AverageLoadIs(cfg, |s.members|);
    AverageEnough(cfg, |s.members|);
    AssignFair(cfg, s, cfg.partitionCount);
    FairBounds(cfg, s, cfg.partitionCount, Assign(cfg, s, cfg.partitionCount).value);
  }

  lemma SoundParts(cfg: Config, s: Ring)
    requires Sound(cfg, s)
    ensures Canonical(cfg, s) && s.members != map[] && |s.members| > 0
  {
  }

  /** With one point a member, a lone member cannot be given any partition. */
  lemma SinglePointPanics(cfg: Config, s: Ring)
    requires |s.sortedSet| == 1 && cfg.partitionCount > 0
    ensures !Distribute(cfg, s).ok
  {
    NoneAssigned(cfg, s, cfg.partitionCount);
  }

  lemma {:induction false} NoneAssigned(cfg: Config, s: Ring, n: nat)
    requires |s.sortedSet| == 1 && n > 0
    ensures Assign(cfg, s, n).None?
  {
    if n > 1 {
      NoneAssigned(cfg, s, n - 1);
    }
  }

  /** A lone member with one point does have a ring of one point. */
  lemma LoneMember(cfg: Config, member: Member)
    requires cfg.replicationFactor == 1 && cfg.partitionCount > 0
    ensures !New(cfg, [member]).ok
  {
    var s := Insert(cfg, EMPTY_RING, member);
    assert InsertAll(cfg, EMPTY_RING, [member]) == s;
    SortSorts([] + PointsFrom(cfg, member.name, 0));
    assert |multiset(s.sortedSet)| == |s.sortedSet|;
    assert |multiset([] + PointsFrom(cfg, member.name, 0))| == 1;
    SinglePointPanics(cfg, s);
  }

  // The owner of each partition

  lemma {:induction false} AssignPrefix(cfg: Config, s: Ring, n: nat, p: nat)
    requires Assign(cfg, s, n).Some? && p < n
    ensures Assign(cfg, s, p).Some? && p in Assign(cfg, s, n).value.partitions
    ensures var a, b := Assign(cfg, s, n).value, Assign(cfg, s, p).value;
            && Home(cfg, s, b.loads, p) == Some(a.partitions[p])
            && (forall q :: q < p ==> (q in b.partitions <==> q in a.partitions) && (q in b.partitions ==> b.partitions[q] == a.partitions[q]))
    decreases n
  {
    hide Home;
    if p < n - 1 {
      AssignPrefix(cfg, s, n - 1, p);
    }
  }

  /** The partitions below `p` that the member owns. */
  ghost function OwnedBelow(partitions: map<nat, Member>, p: nat, name: Name): set<nat> {
    set q | q in partitions && q < p && partitions[q].name == name
  }

  /** The member behind the point owned fewer of the partitions below `p` than the average load. */
  ghost predicate HadRoom(cfg: Config, s: Ring, partitions: map<nat, Member>, p: nat, j: nat) {
    && j < |s.sortedSet| && s.sortedSet[j] in s.ring
    && |OwnedBelow(partitions, p, s.ring[s.sortedSet[j]].name)| + 1 <= AverageLoad(cfg, |s.members|)
  }

  lemma LoadBelow(cfg: Config, s: Ring, n: nat, p: nat, name: Name)
    requires Canonical(cfg, s) && Assign(cfg, s, n).Some? && p < n && Assign(cfg, s, p).Some?
    ensures Load(Assign(cfg, s, p).value.loads, name) == |OwnedBelow(Assign(cfg, s, n).value.partitions, p, name)|
  {
    hide Canonical, AverageLoad, Load, Assign, Total, IsMember;
    AssignFair(cfg, s, p);
    AssignPrefix(cfg, s, n, p);
    var a, b := Assign(cfg, s, n).value, Assign(cfg, s, p).value;
    assert OwnedBy(b.partitions, name) == OwnedBelow(a.partitions, p, name);
  }

  /** Clockwise from the partition's hash, its owner's point is the first whose member owned fewer
      of the partitions before it than the average load. */
  lemma OwnerNearest(cfg: Config, s: Ring, n: nat, p: nat) returns (start: nat, found: nat)
    requires Canonical(cfg, s) && Assign(cfg, s, n).Some? && p < n
    ensures p in Assign(cfg, s, n).value.partitions && start < |s.sortedSet| && found < |s.sortedSet|
    ensures s.sortedSet[start] >= PartitionKey(cfg, p) || (start == 0 && forall j :: 0 <= j < |s.sortedSet| ==> s.sortedSet[j] < PartitionKey(cfg, p))
    ensures forall j :: 0 <= j < start ==> s.sortedSet[j] < PartitionKey(cfg, p)
    ensures var owners := Assign(cfg, s, n).value.partitions;
            && s.sortedSet[found] in s.ring && s.ring[s.sortedSet[found]] == owners[p]
            && forall j: nat :: HadRoom(cfg, s, owners, p, j) ==> Distance(start, found, |s.sortedSet|) <= Distance(start, j, |s.sortedSet|)
  {
    hide Canonical, AverageLoad, PartitionKey, Assign, Home, OwnedBelow, Distance;
    AssignPrefix(cfg, s, n, p);
    var b := Assign(cfg, s, p).value;
    start, found := HomeNearest(cfg, s, b.loads, p);
    var owners := Assign(cfg, s, n).value.partitions;
    forall j: nat | HadRoom(cfg, s, owners, p, j)
      ensures Distance(start, found, |s.sortedSet|) <= Distance(start, j, |s.sortedSet|)
    {
      LoadBelow(cfg, s, n, p, s.ring[s.sortedSet[j]].name);
      assert RoomAt(s, b.loads, AverageLoad(cfg, |s.members|), j);
    }
  }

  // One point a member

  /** Two members with room cannot both be behind the one point the probe leaves out. */
  lemma EitherReached(cfg: Config, s: Ring, loads: map<Name, nat>, partID: nat, a: Name, b: Name)
    requires Canonical(cfg, s) && Distinct(cfg, s.members.Keys) && cfg.replicationFactor >= 1
    requires a in s.members && b in s.members && a != b
    requires Load(loads, a) + 1 <= AverageLoad(cfg, |s.members|) && Load(loads, b) + 1 <= AverageLoad(cfg, |s.members|)
    ensures Home(cfg, s, loads, partID).Some?
  {
    hide Canonical, AverageLoad, Point, StartOf;
    IsBacked(cfg, s);
    var i := PointAt(cfg, s, a, 0);
    var j := PointAt(cfg, s, b, 0);
    assert Point(cfg, a, 0) != Point(cfg, b, 0);
    var avg, idx := AverageLoad(cfg, |s.members|), StartOf(cfg, s.sortedSet, partID);
    NameOf(cfg, s, a);
    NameOf(cfg, s, b);
    assert RoomAt(s, loads, avg, i) && RoomAt(s, loads, avg, j);
    var found := ProbeNearest(s, loads, avg, idx, |s.sortedSet| - 1);
  }

  /** While the placed partitions would fit all members but one, two members have room. */
  lemma TwoRooms(cfg: Config, s: Ring, loads: map<Name, nat>) returns (a: Name, b: Name)
    requires s.members != map[] && Total(s.members.Keys, loads) < (|s.members| - 1) * AverageLoad(cfg, |s.members|)
    ensures a in s.members && b in s.members && a != b
    ensures Load(loads, a) + 1 <= AverageLoad(cfg, |s.members|) && Load(loads, b) + 1 <= AverageLoad(cfg, |s.members|)
  {
    hide AverageLoad, Total;
    var names, avg := s.members.Keys, AverageLoad(cfg, |s.members|);
    assert |names| == |s.members| > 0;
    Positive(|names| - 1, avg, Total(names, loads));
    Succ(|names| - 1, avg);
    TotalBounds(names, loads, avg);
    a :| a in names && Load(loads, a) < avg;
    TotalSplit(names, loads, a);
    TotalBounds(names - {a}, loads, avg);
    b :| b in names - {a} && Load(loads, b) < avg;
  }

  lemma Positive(m: nat, avg: int, total: nat)
    requires total < m * avg
    ensures avg > 0
  {
    if avg <= 0 {
      NotAbove(m, avg);
    }
  }

  lemma {:induction false} NotAbove(m: nat, avg: int)
    requires avg <= 0
    ensures m * avg <= 0
  {
    if m > 0 {
      NotAbove(m - 1, avg);
      Succ(m - 1, avg);
    }
  }

  lemma {:induction false} AssignSpare(cfg: Config, s: Ring, n: nat)
    requires Canonical(cfg, s) && Distinct(cfg, s.members.Keys) && cfg.replicationFactor >= 1 && s.members != map[]
    requires n <= (|s.members| - 1) * AverageLoad(cfg, |s.members|)
    ensures Assign(cfg, s, n).Some?
  {
    hide Canonical, AverageLoad, Fair, Home, Distinct;
    if n > 0 {
      AssignSpare(cfg, s, n - 1);
      AssignFair(cfg, s, n - 1);
      var a := Assign(cfg, s, n - 1).value;
      FairTotal(cfg, s, n - 1, a);
      var x, y := TwoRooms(cfg, s, a.loads);
      EitherReached(cfg, s, a.loads, n - 1, x, y);
    }
  }

  /** With any number of points a member, placement succeeds when the average loads of all
      members but one add up to the partition count. */
  lemma PlacesWithSpare(cfg: Config, s: Ring)
    requires Canonical(cfg, s) && Distinct(cfg, s.members.Keys) && cfg.replicationFactor >= 1 && s.members != map[]
    requires cfg.partitionCount <= (|s.members| - 1) * AverageLoad(cfg, |s.members|)
    ensures Distribute(cfg, s).ok
  {
    hide Canonical, Distinct, AverageLoad;
    AssignSpare(cfg, s, cfg.partitionCount);
  }

  // Two members of one point each, and two partitions that start at the same point

  function TightHash(bytes: seq<Byte>): nat {
    if |bytes| == 2 then bytes[0] else 0
  }

  function TightConfig(): Config {
    Config(TightHash, 2, 1, 1.0)
  }

  function TightRing(): Ring {
    var a, b := Member([1], 1), Member([2], 2);
    Ring([1, 2], map[1 := a, 2 := b], map[[1] := a, [2] := b], map[], map[])
  }

  lemma TightPoints()
    ensures Point(TightConfig(), [1], 0) == 1 && Point(TightConfig(), [2], 0) == 2
    ensures PartitionKey(TightConfig(), 0) == 0 && PartitionKey(TightConfig(), 1) == 0
  {
    hide ToBytes, Reversed;
    assert [1] + Digits(0) == [1, 48] && [2] + Digits(0) == [2, 48];
    ReversedLength(ToBytes(0, 8));
    ReversedLength(ToBytes(1, 8));
  }

  lemma {:induction false} ReversedLength(s: seq<Byte>)
    ensures |Reversed(s)| == |s|
  {
    if s != [] {
      ReversedLength(s[1..]);
    }
  }

  lemma TightPointSet()
    ensures TightRing().members.Keys == {[1], [2]}
    ensures PointSet(TightConfig(), {[1], [2]}) == {1, 2}
  {
    TightPoints();
    hide Point;
    PointIn(TightConfig(), {[1], [2]}, [1], 0);
    PointIn(TightConfig(), {[1], [2]}, [2], 0);
  }

  lemma TightSorted()
    ensures Sorted([1, 2]) && multiset([1, 2]) == multiset({1, 2})
  {
    assert [1, 2][1..] == [2] && [2][1..] == [];
    assert NoneBelow(1, [2]);
  }

  lemma TightDistinct()
    ensures Distinct(TightConfig(), {[1], [2]})
  {
    TightPoints();
    hide Point;
    var cfg := TightConfig();
    forall n, m, i, j | n in {[1], [2]} && m in {[1], [2]} && 0 <= i < 1 && 0 <= j < 1 && Point(cfg, n, i) == Point(cfg, m, j)
      ensures n == m && i == j
    {
      assert i == 0 && j == 0;
    }
  }

  lemma TightLeads()
    ensures Leads(TightConfig(), TightRing().ring, TightRing().members)
  {
    TightPoints();
    TightPointSet();
    hide Point, PointSet;
    var cfg, s := TightConfig(), TightRing();
    assert s.ring.Keys == {1, 2};
    forall n, i | n in s.members && 0 <= i < cfg.replicationFactor
      ensures s.ring[Point(cfg, n, i)] == s.members[n]
    {
      assert i == 0 && (n == [1] || n == [2]);
    }
  }

  lemma TightCanonical()
    ensures Canonical(TightConfig(), TightRing()) && Distinct(TightConfig(), TightRing().members.Keys)
  {
    hide Distinct, Leads, PointSet, Sorted;
    TightPointSet();
    TightSorted();
    TightDistinct();
    TightLeads();
  }

  lemma TightAverage()
    ensures AverageLoad(TightConfig(), 2) == 1
  {
    assert (2 as real / 2 as real) * 1.0 == 1.0;
    assert Ceil(1.0) == 1;
  }

  /** The second partition finds its only reachable point full. */
  lemma TightPanics()
    ensures var cfg, s := TightConfig(), TightRing();
            && Canonical(cfg, s) && Distinct(cfg, s.members.Keys) && |s.members| == 2
            && cfg.partitionCount <= |s.members| * AverageLoad(cfg, |s.members|)
            && cfg.partitionCount == (|s.members| - 1) * AverageLoad(cfg, |s.members|) + 1
            && !Distribute(cfg, s).ok
  {
    TightCanonical();
    TightPoints();
    TightAverage();
    hide Canonical, Distinct, AverageLoad, PartitionKey;
    var cfg, s := TightConfig(), TightRing();
    assert s.members.Keys == {[1], [2]} && |s.members| == 2;
    var a := Member([1], 1);
    assert StartOf(cfg, s.sortedSet, 0) == 0 && StartOf(cfg, s.sortedSet, 1) == 0;
    assert Probe(s, map[], 1, 0, 1) == Some(a);
    var one := Give(Assignment(map[], map[]), 0, a);
    assert Assign(cfg, s, 1) == Some(one) by { assert Assign(cfg, s, 0) == Some(Assignment(map[], map[])); }
    assert Probe(s, one.loads, 1, 0, 1) == None by { assert Probe(s, one.loads, 1, 1, 0) == None; }
    assert Assign(cfg, s, 2) == None;
  }

  // Independence from history

  /** The ring is canonical and its partitions are those placed on it. */
  ghost predicate Settled(cfg: Config, s: Ring) {
    && Canonical(cfg, s)
    && Distinct(cfg, s.members.Keys)
    && (s.members != map[] ==> Assign(cfg, s, cfg.partitionCount) == Some(Assignment(s.partitions, s.loads)))
  }

  lemma {:induction false} ProbeSame(s: Ring, t: Ring, loads: map<Name, nat>, avg: int, idx: nat, left: nat)
    requires s.sortedSet == t.sortedSet && s.ring == t.ring && (left > 0 ==> idx < |s.sortedSet|)
    ensures Probe(s, loads, avg, idx, left) == Probe(t, loads, avg, idx, left)
    decreases left
  {
    if left > 0 {
      ProbeSame(s, t, loads, avg, Next(idx, |s.sortedSet|), left - 1);
    }
  }

  lemma HomeSame(cfg: Config, s: Ring, t: Ring, loads: map<Name, nat>, partID: nat)
    requires s.sortedSet == t.sortedSet && s.ring == t.ring && s.members == t.members
    ensures Home(cfg, s, loads, partID) == Home(cfg, t, loads, partID)
  {
    hide AverageLoad, StartOf, Probe;
    ProbeSame(s, t, loads, AverageLoad(cfg, |s.members|), StartOf(cfg, s.sortedSet, partID),
              if |s.sortedSet| == 0 then 0 else |s.sortedSet| - 1);
  }

  lemma {:induction false} AssignSame(cfg: Config, s: Ring, t: Ring, n: nat)
    requires s.sortedSet == t.sortedSet && s.ring == t.ring && s.members == t.members
    ensures Assign(cfg, s, n) == Assign(cfg, t, n)
  {
    hide Home;
    if n > 0 {
      AssignSame(cfg, s, t, n - 1);
      if Assign(cfg, s, n - 1).Some? {
        HomeSame(cfg, s, t, Assign(cfg, s, n - 1).value.loads, n - 1);
      }
    }
  }

  /** A settled ring with members is determined by them. */
  lemma SettledUnique(cfg: Config, s: Ring, t: Ring)
    requires Settled(cfg, s) && Settled(cfg, t) && s.members == t.members != map[]
    ensures s == t
  {
    hide Canonical, Distinct, Assign;
    CanonicalUnique(cfg, s, t);
    AssignSame(cfg, s, t, cfg.partitionCount);
  }

  lemma DistributeSettles(cfg: Config, s: Ring)
    requires Sound(cfg, s) && cfg.load >= 1.0
    ensures Distribute(cfg, s).ok && Settled(cfg, Distribute(cfg, s).state)
    ensures Distribute(cfg, s).state.members == s.members
  {
    hide Distinct, AverageLoad, IsMember, Assign;
    NeverPanics(cfg, s);
    AssignSame(cfg, s, Distribute(cfg, s).state, cfg.partitionCount);
  }

  datatype RingOp = Join(member: Member) | Leave(name: Name)

  function Step(cfg: Config, s: Ring, op: RingOp): Outcome {
    match op
    case Join(member) => Add(cfg, s, member)
    case Leave(name) => Remove(cfg, s, name)
  }

  function MembersAfter(members: map<Name, Member>, op: RingOp): map<Name, Member> {
    match op
    case Join(member) => if member.name in members then members else members[member.name := member]
    case Leave(name) => members - {name}
  }

  /** A run of joins and leaves; it ends early at a panic. */
  function Run(cfg: Config, s: Ring, ops: seq<RingOp>): Outcome
    decreases |ops|
  {
    if ops == [] then Outcome(s, true)
    else
      var r := Step(cfg, s, ops[0]);
      if r.ok then Run(cfg, r.state, ops[1..]) else r
  }

  function MembersAfterAll(members: map<Name, Member>, ops: seq<RingOp>): map<Name, Member>
    decreases |ops|
  {
    if ops == [] then members else MembersAfterAll(MembersAfter(members, ops[0]), ops[1..])
  }

  /** At every moment the points of the members present are distinct. */
  ghost predicate DistinctAlong(cfg: Config, members: map<Name, Member>, ops: seq<RingOp>)
    decreases |ops|
  {
    Distinct(cfg, members.Keys) && (ops != [] ==> DistinctAlong(cfg, MembersAfter(members, ops[0]), ops[1..]))
  }

  lemma StepSettles(cfg: Config, s: Ring, op: RingOp)
    requires Settled(cfg, s) && Distinct(cfg, MembersAfter(s.members, op).Keys)
    requires cfg.replicationFactor >= 2 && cfg.load >= 1.0
    ensures var r := Step(cfg, s, op); r.ok && Settled(cfg, r.state) && r.state.members == MembersAfter(s.members, op)
  {
    hide Canonical, Distinct, Assign, Distribute, Insert, Without;
    match op
    case Join(member) =>
      if member.name !in s.members {
        assert s.members[member.name := member].Keys == s.members.Keys + {member.name};
        InsertCanonical(cfg, s, member);
        DistributeSettles(cfg, Insert(cfg, s, member));
      }
    case Leave(name) =>
      if name in s.members {
        RemoveCanonical(cfg, s, name);
        var s1 := Without(s, PointsFrom(cfg, name, 0));
        var s2 := s1.(members := s1.members - {name});
        if s2.members == map[] {
          CanonicalSame(cfg, s2, s2.(partitions := map[]));
        } else {
          DistributeSettles(cfg, s2);
        }
      } else {
        assert s.members - {name} == s.members;
      }
  }

  lemma CanonicalSame(cfg: Config, s: Ring, t: Ring)
    requires Canonical(cfg, s) && s.sortedSet == t.sortedSet && s.ring == t.ring && s.members == t.members
    ensures Canonical(cfg, t)
  {
  }

  lemma {:induction false} RunSettles(cfg: Config, s: Ring, ops: seq<RingOp>)
    requires Settled(cfg, s) && DistinctAlong(cfg, s.members, ops)
    requires cfg.replicationFactor >= 2 && cfg.load >= 1.0
    ensures var r := Run(cfg, s, ops); r.ok && Settled(cfg, r.state) && r.state.members == MembersAfterAll(s.members, ops)
    decreases |ops|
  {
    hide Settled, Distinct, MembersAfter, Step;
    if ops != [] {
      DistinctNow(cfg, MembersAfter(s.members, ops[0]), ops[1..]);
      StepSettles(cfg, s, ops[0]);
      RunSettles(cfg, Step(cfg, s, ops[0]).state, ops[1..]);
    }
  }

  lemma DistinctNow(cfg: Config, members: map<Name, Member>, ops: seq<RingOp>)
    requires DistinctAlong(cfg, members, ops)
    ensures Distinct(cfg, members.Keys)
  {
  }

  function Listed(order: seq<Member>): map<Name, Member> {
    if order == [] then map[] else Listed(order[1..])[order[0].name := order[0]]
  }

  predicate NoRepeats(order: seq<Member>) {
    order == [] || (order[0].name !in Listed(order[1..]) && NoRepeats(order[1..]))
  }

  lemma {:induction false} InsertAllCanonical(cfg: Config, s: Ring, order: seq<Member>)
    requires Canonical(cfg, s) && NoRepeats(order) && s.members.Keys !! Listed(order).Keys
    requires Distinct(cfg, s.members.Keys + Listed(order).Keys)
    ensures Canonical(cfg, InsertAll(cfg, s, order))
    ensures InsertAll(cfg, s, order).members == s.members + Listed(order)
    decreases |order|
  {
    if order == [] {
      assert s.members + Listed(order) == s.members;
    } else {
      hide Canonical, Insert, Distinct, Listed;
      var m, rest := order[0], order[1..];
      ListedStep(s.members, order);
      DistinctSubset(cfg, s.members.Keys + Listed(order).Keys, s.members.Keys + {m.name});
      InsertCanonical(cfg, s, m);
      InsertAllCanonical(cfg, Insert(cfg, s, m), rest);
    }
  }

  lemma ListedStep(members: map<Name, Member>, order: seq<Member>)
    requires order != [] && NoRepeats(order) && members.Keys !! Listed(order).Keys
    ensures NoRepeats(order[1..]) && order[0].name !in members && order[0].name in Listed(order)
    ensures var joined := members[order[0].name := order[0]];
            && joined.Keys !! Listed(order[1..]).Keys
            && joined.Keys + Listed(order[1..]).Keys == members.Keys + Listed(order).Keys
            && joined + Listed(order[1..]) == members + Listed(order)
  {
    var m, rest := order[0], Listed(order[1..]);
    assert Listed(order) == rest[m.name := m];
    JoinedMaps(members, rest, m);
  }

  lemma JoinedMaps(members: map<Name, Member>, rest: map<Name, Member>, m: Member)
    requires m.name !in rest && m.name !in members
    ensures members[m.name := m] + rest == members + rest[m.name := m]
    ensures members[m.name := m].Keys + rest.Keys == members.Keys + rest[m.name := m].Keys
  {
  }

  lemma DistinctSubset(cfg: Config, names: set<Name>, some: set<Name>)
    requires Distinct(cfg, names) && some <= names
    ensures Distinct(cfg, some)
  {
    hide Point;
  }

  lemma EmptySettled(cfg: Config)
    ensures Settled(cfg, EMPTY_RING)
  {
    assert PointSet(cfg, {}) == {};
  }

  lemma NewSettles(cfg: Config, order: seq<Member>)
    requires order != [] && NoRepeats(order) && Distinct(cfg, Listed(order).Keys)
    requires cfg.replicationFactor >= 2 && cfg.load >= 1.0
    ensures New(cfg, order).ok && Settled(cfg, New(cfg, order).state) && New(cfg, order).state.members == Listed(order)
  {
    hide Canonical, Distinct, Distribute, Assign, Listed;
    EmptySettled(cfg);
    assert EMPTY_RING.members.Keys + Listed(order).Keys == Listed(order).Keys;
    InsertAllCanonical(cfg, EMPTY_RING, order);
    assert EMPTY_RING.members + Listed(order) == Listed(order);
    FirstListed(order);
    DistributeSettles(cfg, InsertAll(cfg, EMPTY_RING, order));
  }

  function TightMembers(): seq<Member> {
    [Member([1], 1), Member([2], 2)]
  }

  lemma TightListed()
    ensures NoRepeats(TightMembers()) && Listed(TightMembers()) == TightRing().members
  {
    var order := TightMembers();
    assert order[1..] == [order[1]] && order[1..][1..] == [];
  }

  lemma TightNew()
    ensures var s := InsertAll(TightConfig(), EMPTY_RING, TightMembers());
            s.members == TightRing().members && s.sortedSet == TightRing().sortedSet && s.ring == TightRing().ring
  {
    hide Canonical, Distinct, InsertAll, Listed, NoRepeats, TightConfig, TightMembers, TightRing;
    TightListed();
    TightCanonical();
    EmptySettled(TightConfig());
    assert EMPTY_RING.members.Keys + TightRing().members.Keys == TightRing().members.Keys;
    InsertAllCanonical(TightConfig(), EMPTY_RING, TightMembers());
    assert EMPTY_RING.members + Listed(TightMembers()) == Listed(TightMembers());
    CanonicalUnique(TightConfig(), InsertAll(TightConfig(), EMPTY_RING, TightMembers()), TightRing());
  }

  /** So one point a member is not enough when the loads just add up: New of two members with
      two partitions panics. */
  lemma OnePointTight()
    ensures var cfg, order := TightConfig(), TightMembers();
            && cfg.replicationFactor == 1 && NoRepeats(order) && Distinct(cfg, Listed(order).Keys)
            && cfg.partitionCount == (|order| - 1) * AverageLoad(cfg, |order|) + 1 == |order| * AverageLoad(cfg, |order|)
            && !New(cfg, order).ok
  {
    hide Canonical, Distinct, InsertAll, Listed, NoRepeats, Assign, AverageLoad, TightRing;
    TightPanics();
    TightListed();
    TightCanonical();
    TightAverage();
    TightNew();
    AssignSame(TightConfig(), TightRing(), InsertAll(TightConfig(), EMPTY_RING, TightMembers()), TightConfig().partitionCount);
  }

  lemma FirstListed(order: seq<Member>)
    requires order != []
    ensures order[0].name in Listed(order) && Listed(order) != map[]
  {
  }

  /** After any joins and leaves, from any settled ring, the ring is the one New builds from
      the members present, listed in any order. */
  lemma HistoryIndependent(cfg: Config, s: Ring, ops: seq<RingOp>, order: seq<Member>)
    requires Settled(cfg, s) && DistinctAlong(cfg, s.members, ops)
    requires cfg.replicationFactor >= 2 && cfg.load >= 1.0
    requires order != [] && NoRepeats(order) && Listed(order) == MembersAfterAll(s.members, ops)
    ensures Run(cfg, s, ops).ok && New(cfg, order).ok
    ensures Run(cfg, s, ops).state == New(cfg, order).state
  {
    hide Canonical, Distinct, Assign, Run, New, Listed, MembersAfterAll, DistinctAlong;
    RunSettles(cfg, s, ops);
    NewSettles(cfg, order);
    FirstListed(order);
    SettledUnique(cfg, Run(cfg, s, ops).state, New(cfg, order).state);
  }

  /** When the last member leaves there are no points and no owners; the loads stay as they were. */
  lemma LastLeaves(cfg: Config, s: Ring, name: Name)
    requires Canonical(cfg, s) && Distinct(cfg, s.members.Keys) && s.members.Keys == {name}
    ensures var r := Remove(cfg, s, name);
            r.ok && r.state.members == map[] && r.state.partitions == map[] && r.state.sortedSet == [] && r.state.ring == map[] && r.state.loads == s.loads
  {
    hide Canonical, Distinct, Without;
    RemoveCanonical(cfg, s, name);
    WithoutKeeps(s, PointsFrom(cfg, name, 0));
    assert (s.members - {name}).Keys == {};
    EmptyCanonical(cfg, Without(s, PointsFrom(cfg, name, 0)).(members := s.members - {name}));
  }

  lemma {:induction false} WithoutKeeps(s: Ring, points: seq<nat>)
    ensures var r := Without(s, points); r.loads == s.loads && r.members == s.members && r.partitions == s.partitions
    decreases |points|
  {
    if points != [] {
      WithoutKeeps(s.(ring := s.ring - {points[0]}, sortedSet := DelSlice(s.sortedSet, points[0])), points[1..]);
    }
  }

  lemma EmptyCanonical(cfg: Config, s: Ring)
    requires Canonical(cfg, s) && s.members == map[]
    ensures s.sortedSet == [] && s.ring == map[]
  {
    assert PointSet(cfg, {}) == {};
    assert |multiset(s.sortedSet)| == |s.sortedSet|;
  }

  /** A join followed by the same member's leave restores the ring and every owner. */
  lemma JoinLeaveRestores(cfg: Config, s: Ring, member: Member)
    requires Settled(cfg, s) && s.members != map[] && member.name !in s.members
    requires Distinct(cfg, s.members.Keys + {member.name})
    requires cfg.replicationFactor >= 2 && cfg.load >= 1.0
    ensures Add(cfg, s, member).ok && Remove(cfg, Add(cfg, s, member).state, member.name) == Outcome(s, true)
  {
    hide Canonical, Distinct, Assign, Add, Remove;
    var joined := s.members[member.name := member];
    assert joined.Keys == s.members.Keys + {member.name};
    StepSettles(cfg, s, Join(member));
    assert joined - {member.name} == s.members;
    var s1 := Add(cfg, s, member).state;
    StepSettles(cfg, s1, Leave(member.name));
    SettledUnique(cfg, s, Remove(cfg, s1, member.name).state);
  }
}
