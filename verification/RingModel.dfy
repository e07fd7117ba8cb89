/** The consistent hash ring with bounded loads, on values. */
module RingModel {
  import opened Codec

  type Name = seq<Byte>

  datatype Member = Member(name: Name, id: nat)

  datatype Config = Config(sum64: seq<Byte> -> nat, partitionCount: nat, replicationFactor: nat, load: real)

  datatype Ring = Ring(sortedSet: seq<nat>, ring: map<nat, Member>, members: map<Name, Member>,
                       loads: map<Name, nat>, partitions: map<nat, Member>)

  const EMPTY_RING := Ring([], map[], map[], map[], map[])

  // Hashed points

  function Digits(n: nat): seq<Byte> {
    if n < 10 then [48 + n] else Digits(n / 10) + [48 + n % 10]
  }

  /** The `i`-th point of a member: the hash of its name followed by `i` in decimal. */
  function Point(cfg: Config, name: Name, i: nat): nat {
    cfg.sum64(name + Digits(i))
  }

  function Reversed(s: seq<Byte>): seq<Byte> {
    if s == [] then [] else Reversed(s[1..]) + [s[0]]
  }

  /** The hash of a partition: of its number as eight little-endian bytes. */
  function PartitionKey(cfg: Config, partID: nat): nat {
    cfg.sum64(Reversed(ToBytes(partID, 8)))
  }

  lemma {:induction false} ReversedAt(s: seq<Byte>, i: nat)
    requires i < |s|
    ensures |Reversed(s)| == |s| && Reversed(s)[i] == s[|s| - 1 - i]
  {
    if |s| > 1 {
      ReversedAt(s[1..], if i < |s| - 1 then i else 0);
    }
  }

  /** A partition's hash is that of its number in eight bytes, the lowest first. */
  lemma PartitionKeyIs(cfg: Config, partID: nat, bs: seq<Byte>)
    requires |bs| == 8 && forall i :: 0 <= i < 8 ==> bs[i] == Shifted(partID, i) % 256
    ensures PartitionKey(cfg, partID) == cfg.sum64(bs)
  {
    var r := Reversed(ToBytes(partID, 8));
    ReversedAt(ToBytes(partID, 8), 0);
    forall i | 0 <= i < 8
      ensures r[i] == bs[i]
    {
      ReversedAt(ToBytes(partID, 8), i);
      BytesAt(partID, 8, 7 - i);
    }
    assert r == bs;
  }

  /** What a run of decimal digits says. */
  function Decimal(s: seq<Byte>): int {
    if s == [] then 0
    else
      var digit: int := s[|s| - 1];
      10 * Decimal(s[..|s| - 1]) + digit - 48
  }

  /** The digits are decimal digits, say the number, and have no leading zero. */
  lemma {:induction false} DigitsAre(n: nat)
    ensures Decimal(Digits(n)) == n && Digits(n) != []
    ensures forall i :: 0 <= i < |Digits(n)| ==> 48 <= Digits(n)[i] <= 57
    ensures n > 0 ==> Digits(n)[0] != 48
    ensures n == 0 ==> Digits(n) == [48]
  {
    if n < 10 {
      assert [48 + n][..0] == [];
    } else {
      DigitsAre(n / 10);
      var d := Digits(n);
      assert d[..|d| - 1] == Digits(n / 10);
    }
  }

  function PointsFrom(cfg: Config, name: Name, i: nat): (r: seq<nat>)
    ensures i <= cfg.replicationFactor ==> |r| == cfg.replicationFactor - i
    decreases cfg.replicationFactor - i
  {
    if i >= cfg.replicationFactor then [] else [Point(cfg, name, i)] + PointsFrom(cfg, name, i + 1)
  }

  // Sorting

  predicate NoneBelow(x: nat, s: seq<nat>) {
    forall y :: y in multiset(s) ==> x <= y
  }

  predicate Sorted(s: seq<nat>) {
    s == [] || (NoneBelow(s[0], s[1..]) && Sorted(s[1..]))
  }

  function InsertSorted(x: nat, s: seq<nat>): seq<nat> {
    if s == [] || x <= s[0] then [x] + s else [s[0]] + InsertSorted(x, s[1..])
  }

  function Sort(s: seq<nat>): seq<nat> {
    if s == [] then [] else InsertSorted(s[0], Sort(s[1..]))
  }

  lemma Uncons(s: seq<nat>)
    requires s != []
    ensures multiset(s) == multiset{s[0]} + multiset(s[1..])
  {
    assert s == [s[0]] + s[1..];
  }

  lemma Prepended(x: nat, s: seq<nat>)
    ensures ([x] + s)[1..] == s
    ensures multiset([x] + s) == multiset{x} + multiset(s)
  {
  }

  lemma {:induction false} InsertSortedSorts(x: nat, s: seq<nat>)
    requires Sorted(s)
    ensures multiset(InsertSorted(x, s)) == multiset(s) + multiset{x}
    ensures Sorted(InsertSorted(x, s))
  {
    if s == [] || x <= s[0] {
      Prepended(x, s);
      if s != [] {
        Uncons(s);
      }
      assert NoneBelow(x, s);
    } else {
      Uncons(s);
      InsertSortedSorts(x, s[1..]);
      Prepended(s[0], InsertSorted(x, s[1..]));
    }
  }

  lemma {:induction false} SortSorts(s: seq<nat>)
    ensures Sorted(Sort(s))
    ensures multiset(Sort(s)) == multiset(s)
  {
    if s != [] {
      SortSorts(s[1..]);
      InsertSortedSorts(s[0], Sort(s[1..]));
      Uncons(s);
    }
  }

  lemma SameHead(s: seq<nat>, t: seq<nat>)
    requires s != [] && t != [] && Sorted(s) && Sorted(t) && multiset(s) == multiset(t)
    ensures s[0] == t[0] && multiset(s[1..]) == multiset(t[1..])
  {
    Uncons(s);
    Uncons(t);
    assert s[0] in multiset(t) && t[0] in multiset(s);
    assert multiset(s[1..]) == multiset(s) - multiset{s[0]};
    assert multiset(t[1..]) == multiset(t) - multiset{t[0]};
  }

  lemma {:induction false} SortedUnique(s: seq<nat>, t: seq<nat>)
    requires Sorted(s) && Sorted(t) && multiset(s) == multiset(t)
    ensures s == t
  {
    assert |multiset(s)| == |s| && |multiset(t)| == |t|;
    if s != [] {
      hide NoneBelow;
      SameHead(s, t);
      SortedUnique(s[1..], t[1..]);
      assert s == [s[0]] + s[1..] && t == [t[0]] + t[1..];
    }
  }

  /** delSlice: the first occurrence of `val` is removed, if there is one. */
  function DelSlice(s: seq<nat>, val: nat): seq<nat> {
    if s == [] then [] else if s[0] == val then s[1..] else [s[0]] + DelSlice(s[1..], val)
  }

  lemma {:induction false} DelSliceRemoves(s: seq<nat>, val: nat)
    ensures multiset(DelSlice(s, val)) == multiset(s) - multiset{val}
    ensures Sorted(s) ==> Sorted(DelSlice(s, val))
  {
    if s != [] {
      DelSliceRemoves(s[1..], val);
      Uncons(s);
      if s[0] != val {
        var r := DelSlice(s, val);
        assert r[1..] == DelSlice(s[1..], val);
        Uncons(r);
      }
    }
  }

  // Membership

  function RingWith(ring: map<nat, Member>, points: seq<nat>, member: Member): map<nat, Member>
    decreases |points|
  {
    if points == [] then ring else RingWith(ring[points[0] := member], points[1..], member)
  }

  /** add. */
  function Insert(cfg: Config, s: Ring, member: Member): Ring {
    var points := PointsFrom(cfg, member.name, 0);
    s.(sortedSet := Sort(s.sortedSet + points), ring := RingWith(s.ring, points, member),
       members := s.members[member.name := member])
  }

  function Without(s: Ring, points: seq<nat>): Ring
    decreases |points|
  {
    if points == [] then s
    else Without(s.(ring := s.ring - {points[0]}, sortedSet := DelSlice(s.sortedSet, points[0])), points[1..])
  }

  // Placing partitions

  function Ceil(x: real): int {
    -((-x).Floor)
  }

  function AverageLoad(cfg: Config, memberCount: nat): int {
    if memberCount == 0 then 0 else Ceil((cfg.partitionCount as real / memberCount as real) * cfg.load)
  }

  function Load(loads: map<Name, nat>, name: Name): nat {
    if name in loads then loads[name] else 0
  }

  function Next(idx: nat, n: nat): nat {
    if idx + 1 >= n then 0 else idx + 1
  }

  /** The first of `left` points from `idx` on, clockwise, whose member has room. A point
      that no member stands behind is a nil dereference. */
  function Probe(s: Ring, loads: map<Name, nat>, avg: int, idx: nat, left: nat): (r: Option<Member>)
    requires left > 0 ==> idx < |s.sortedSet|
    decreases left
  {
    if left == 0 then None
    else if s.sortedSet[idx] !in s.ring then None
    else
      var member := s.ring[s.sortedSet[idx]];
      if Load(loads, member.name) + 1 <= avg then Some(member)
      else Probe(s, loads, avg, Next(idx, |s.sortedSet|), left - 1)
  }

  /** sort.Search for the first point at or after `key`. */
  function FirstAtLeast(points: seq<nat>, key: nat): (i: nat)
    ensures i <= |points|
    ensures i < |points| ==> points[i] >= key
    ensures forall j :: 0 <= j < i ==> points[j] < key
  {
    if points == [] || points[0] >= key then 0 else 1 + FirstAtLeast(points[1..], key)
  }

  function StartOf(cfg: Config, points: seq<nat>, partID: nat): (i: nat)
    ensures points != [] ==> i < |points|
  {
    var i := FirstAtLeast(points, PartitionKey(cfg, partID));
    if i >= |points| then 0 else i
  }

  function Home(cfg: Config, s: Ring, loads: map<Name, nat>, partID: nat): Option<Member> {
    Probe(s, loads, AverageLoad(cfg, |s.members|), StartOf(cfg, s.sortedSet, partID),
          if |s.sortedSet| == 0 then 0 else |s.sortedSet| - 1)
  }

  datatype Assignment = Assignment(partitions: map<nat, Member>, loads: map<Name, nat>)

  function Give(a: Assignment, partID: nat, member: Member): Assignment {
    Assignment(a.partitions[partID := member], a.loads[member.name := Load(a.loads, member.name) + 1])
  }

  /** The assignment after partitions 0 to `n`; None is the panic. */
  function Assign(cfg: Config, s: Ring, n: nat): Option<Assignment> {
    if n == 0 then Some(Assignment(map[], map[]))
    else match Assign(cfg, s, n - 1)
      case None => None
      case Some(a) =>
        match Home(cfg, s, a.loads, n - 1)
        case None => None
        case Some(member) => Some(Give(a, n - 1, member))
  }

  /** What a call leaves behind, and whether it returned rather than panicked. */
  datatype Outcome = Outcome(state: Ring, ok: bool)

  /** distributePartitions: on a panic the old assignment stays. */
  function Distribute(cfg: Config, s: Ring): Outcome {
    match Assign(cfg, s, cfg.partitionCount)
    case None => Outcome(s, false)
    case Some(a) => Outcome(s.(partitions := a.partitions, loads := a.loads), true)
  }

  function Add(cfg: Config, s: Ring, member: Member): Outcome {
    if member.name in s.members then Outcome(s, true) else Distribute(cfg, Insert(cfg, s, member))
  }

  function Remove(cfg: Config, s: Ring, name: Name): Outcome {
    if name !in s.members then Outcome(s, true)
    else
      var s1 := Without(s, PointsFrom(cfg, name, 0));
      var s2 := s1.(members := s1.members - {name});
      if s2.members == map[] then Outcome(s2.(partitions := map[]), true) else Distribute(cfg, s2)
  }

  function InsertAll(cfg: Config, s: Ring, members: seq<Member>): Ring
    decreases |members|
  {
    if members == [] then s else InsertAll(cfg, Insert(cfg, s, members[0]), members[1..])
  }

  /** New of a slice that is not nil. */
  function New(cfg: Config, members: seq<Member>): Outcome {
    Distribute(cfg, InsertAll(cfg, EMPTY_RING, members))
  }

  // The canonical ring

  ghost function PointSet(cfg: Config, names: set<Name>): set<nat> {
    set n, i | n in names && 0 <= i < cfg.replicationFactor :: Point(cfg, n, i)
  }

  /** No two points of the members coincide. */
  ghost predicate Distinct(cfg: Config, names: set<Name>) {
    forall n, m, i, j :: n in names && m in names && 0 <= i < cfg.replicationFactor && 0 <= j < cfg.replicationFactor ==>
      Point(cfg, n, i) == Point(cfg, m, j) ==> n == m && i == j
  }

  /** Each member's points, and nothing else, lead to it. */
  ghost predicate Leads(cfg: Config, ring: map<nat, Member>, members: map<Name, Member>) {
    && ring.Keys == PointSet(cfg, members.Keys)
    && (forall n, i :: n in members && 0 <= i < cfg.replicationFactor ==> ring[Point(cfg, n, i)] == members[n])
  }

  /** The points are those of the members, in order, each leading to its member. */
  ghost predicate Canonical(cfg: Config, s: Ring) {
    && Sorted(s.sortedSet)
    && multiset(s.sortedSet) == multiset(PointSet(cfg, s.members.Keys))
    && Leads(cfg, s.ring, s.members)
    && (forall n :: n in s.members ==> s.members[n].name == n)
  }

  ghost function PointSetFrom(cfg: Config, name: Name, i: nat): set<nat> {
    set j | i <= j < cfg.replicationFactor :: Point(cfg, name, j)
  }

  lemma PointSetStep(cfg: Config, name: Name, i: nat)
    requires Distinct(cfg, {name}) && i < cfg.replicationFactor
    ensures PointSetFrom(cfg, name, i) == PointSetFrom(cfg, name, i + 1) + {Point(cfg, name, i)}
    ensures Point(cfg, name, i) !in PointSetFrom(cfg, name, i + 1)
  {
    hide Point;
  }

  lemma AddOne(points: set<nat>, x: nat)
    requires x !in points
    ensures multiset(points + {x}) == multiset{x} + multiset(points)
  {
  }

  lemma {:induction false} PointsFromSet(cfg: Config, name: Name, i: nat)
    requires Distinct(cfg, {name})
    ensures multiset(PointsFrom(cfg, name, i)) == multiset(PointSetFrom(cfg, name, i))
    decreases cfg.replicationFactor - i
  {
    if i < cfg.replicationFactor {
      hide Point, Distinct, PointSetFrom;
      PointsFromSet(cfg, name, i + 1);
      PointSetStep(cfg, name, i);
      AddOne(PointSetFrom(cfg, name, i + 1), Point(cfg, name, i));
      Prepended(Point(cfg, name, i), PointsFrom(cfg, name, i + 1));
    } else {
      assert PointSetFrom(cfg, name, i) == {};
    }
  }

  lemma PointsOf(cfg: Config, name: Name)
    requires Distinct(cfg, {name})
    ensures multiset(PointsFrom(cfg, name, 0)) == multiset(PointSet(cfg, {name}))
  {
    hide Point;
    PointsFromSet(cfg, name, 0);
    assert PointSet(cfg, {name}) == PointSetFrom(cfg, name, 0);
  }

  lemma PointIn(cfg: Config, names: set<Name>, n: Name, i: nat)
    requires n in names && i < cfg.replicationFactor
    ensures Point(cfg, n, i) in PointSet(cfg, names)
  {
  }

  lemma PointSetSplit(cfg: Config, names: set<Name>, name: Name)
    requires name !in names && Distinct(cfg, names + {name})
    ensures PointSet(cfg, names + {name}) == PointSet(cfg, names) + PointSet(cfg, {name})
    ensures PointSet(cfg, names) !! PointSet(cfg, {name})
    ensures Distinct(cfg, {name}) && Distinct(cfg, names)
  {
    hide Point;
  }

  lemma {:induction false} RingWithHas(ring: map<nat, Member>, points: seq<nat>, member: Member)
    ensures RingWith(ring, points, member).Keys == ring.Keys + set h | h in points
    ensures forall h :: h in points ==> RingWith(ring, points, member)[h] == member
    ensures forall h :: h in ring && h !in points ==> RingWith(ring, points, member)[h] == ring[h]
    decreases |points|
  {
    if points != [] {
      RingWithHas(ring[points[0] := member], points[1..], member);
      assert points == [points[0]] + points[1..];
    }
  }

  /** A sequence with the multiset of a set has its elements. */
  lemma ElementsOf(points: seq<nat>, elements: set<nat>)
    requires multiset(points) == multiset(elements)
    ensures (set h | h in points) == elements
    ensures forall h :: h in points <==> h in elements
  {
    forall h
      ensures h in points <==> h in elements
    {
      assert h in points <==> h in multiset(points);
    }
  }

  lemma InsertPoints(cfg: Config, s: Ring, member: Member)
    requires Canonical(cfg, s) && member.name !in s.members
    requires Distinct(cfg, s.members.Keys + {member.name})
    ensures Sorted(Insert(cfg, s, member).sortedSet)
    ensures multiset(Insert(cfg, s, member).sortedSet) == multiset(PointSet(cfg, s.members.Keys + {member.name}))
  {
    hide Point, Sorted, Sort, PointSet, Distinct, Leads;
    var names, n := s.members.Keys, member.name;
    var points := PointsFrom(cfg, n, 0);
    PointSetSplit(cfg, names, n);
    PointsOf(cfg, n);
    SortSorts(s.sortedSet + points);
  }

  lemma InsertLeads(cfg: Config, s: Ring, member: Member)
    requires Canonical(cfg, s) && member.name !in s.members
    requires Distinct(cfg, s.members.Keys + {member.name})
    ensures Leads(cfg, Insert(cfg, s, member).ring, s.members[member.name := member])
  {
    hide Point, Sorted, Sort, Distinct, PointSet, PointsFrom, RingWith;
    var names, n := s.members.Keys, member.name;
    var points := PointsFrom(cfg, n, 0);
    PointSetSplit(cfg, names, n);
    PointsOf(cfg, n);
    ElementsOf(points, PointSet(cfg, {n}));
    RingWithHas(s.ring, points, member);
    var ring, members := RingWith(s.ring, points, member), s.members[n := member];
    assert members.Keys == names + {n};
    forall m, i | m in members && 0 <= i < cfg.replicationFactor
      ensures Point(cfg, m, i) in ring && ring[Point(cfg, m, i)] == members[m]
    {
      if m == n {
        PointIn(cfg, {n}, m, i);
      } else {
        PointIn(cfg, names, m, i);
      }
    }
  }

  lemma InsertCanonical(cfg: Config, s: Ring, member: Member)
    requires Canonical(cfg, s) && member.name !in s.members
    requires Distinct(cfg, s.members.Keys + {member.name})
    ensures Canonical(cfg, Insert(cfg, s, member))
    ensures Insert(cfg, s, member).members == s.members[member.name := member]
  {
    hide Point, Sorted, Sort, PointSet, Distinct, Leads, PointsFrom;
    InsertPoints(cfg, s, member);
    InsertLeads(cfg, s, member);
    assert s.members[member.name := member].Keys == s.members.Keys + {member.name};
  }

  lemma {:induction false} WithoutRing(s: Ring, points: seq<nat>)
    ensures Without(s, points).ring == s.ring - set h | h in points
    ensures Without(s, points).members == s.members
    decreases |points|
  {
    if points != [] {
      WithoutRing(s.(ring := s.ring - {points[0]}, sortedSet := DelSlice(s.sortedSet, points[0])), points[1..]);
      assert (set h | h in points) == {points[0]} + set h | h in points[1..];
    }
  }

  lemma {:induction false} WithoutPoints(s: Ring, points: seq<nat>)
    requires Sorted(s.sortedSet)
    ensures multiset(Without(s, points).sortedSet) == multiset(s.sortedSet) - multiset(points)
    ensures Sorted(Without(s, points).sortedSet)
    decreases |points|
  {
    hide Sorted;
    if points != [] {
      DelSliceRemoves(s.sortedSet, points[0]);
      WithoutPoints(s.(ring := s.ring - {points[0]}, sortedSet := DelSlice(s.sortedSet, points[0])), points[1..]);
      Uncons(points);
    }
  }

  lemma RemoveLeads(cfg: Config, s: Ring, name: Name)
    requires Canonical(cfg, s) && name in s.members && Distinct(cfg, s.members.Keys)
    ensures Leads(cfg, Without(s, PointsFrom(cfg, name, 0)).ring, s.members - {name})
  {
    hide Point, Sorted, Distinct, PointSet, PointsFrom, Without;
    var rest := s.members.Keys - {name};
    assert rest + {name} == s.members.Keys;
    var points := PointsFrom(cfg, name, 0);
    PointSetSplit(cfg, rest, name);
    PointsOf(cfg, name);
    ElementsOf(points, PointSet(cfg, {name}));
    WithoutRing(s, points);
    var members := s.members - {name};
    assert members.Keys == rest;
    forall m, i | m in members && 0 <= i < cfg.replicationFactor
      ensures Point(cfg, m, i) in s.ring && Point(cfg, m, i) !in points
    {
      PointIn(cfg, rest, m, i);
    }
  }

  lemma RemovePoints(cfg: Config, s: Ring, name: Name)
    requires Canonical(cfg, s) && name in s.members && Distinct(cfg, s.members.Keys)
    ensures Sorted(Without(s, PointsFrom(cfg, name, 0)).sortedSet)
    ensures multiset(Without(s, PointsFrom(cfg, name, 0)).sortedSet) == multiset(PointSet(cfg, s.members.Keys - {name}))
  {
    hide Point, Sorted, Distinct, PointSet, Leads;
    var rest := s.members.Keys - {name};
    assert rest + {name} == s.members.Keys;
    PointSetSplit(cfg, rest, name);
    PointsOf(cfg, name);
    WithoutPoints(s, PointsFrom(cfg, name, 0));
  }

  lemma RemoveCanonical(cfg: Config, s: Ring, name: Name)
    requires Canonical(cfg, s) && name in s.members && Distinct(cfg, s.members.Keys)
    ensures Without(s, PointsFrom(cfg, name, 0)).members == s.members
    ensures Canonical(cfg, Without(s, PointsFrom(cfg, name, 0)).(members := s.members - {name}))
  {
    hide Point, Sorted, Distinct, PointSet, Leads, PointsFrom, Without;
    RemoveLeads(cfg, s, name);
    RemovePoints(cfg, s, name);
    WithoutRing(s, PointsFrom(cfg, name, 0));
    assert (s.members - {name}).Keys == s.members.Keys - {name};
  }

  lemma CanonicalUnique(cfg: Config, s: Ring, t: Ring)
    requires Canonical(cfg, s) && Canonical(cfg, t) && s.members == t.members
    ensures s.sortedSet == t.sortedSet && s.ring == t.ring
  {
    SortedUnique(s.sortedSet, t.sortedSet);
    forall h | h in s.ring
      ensures s.ring[h] == t.ring[h]
    {
      var n, i :| n in s.members && 0 <= i < cfg.replicationFactor && Point(cfg, n, i) == h;
    }
  }
}
