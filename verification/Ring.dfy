/** The ring as the source keeps it: fields changed in place by Add and Remove. */
module RingClass {
  import opened Codec
  import opened RingModel

  const DEFAULT_PARTITION_COUNT: nat := 271
  const DEFAULT_REPLICATION_FACTOR: nat := 20
  const DEFAULT_LOAD: real := 1.25

  function WithDefaults(cfg: Config): Config {
    cfg.(partitionCount := if cfg.partitionCount == 0 then DEFAULT_PARTITION_COUNT else cfg.partitionCount,
         replicationFactor := if cfg.replicationFactor == 0 then DEFAULT_REPLICATION_FACTOR else cfg.replicationFactor,
         load := if cfg.load == 0.0 then DEFAULT_LOAD else cfg.load)
  }

  /** Fields left at zero become 271 partitions, 20 points a member and a load factor of 1.25. */
  lemma DefaultsAre(cfg: Config)
    ensures var r := WithDefaults(cfg);
            && (cfg.partitionCount == 0 ==> r.partitionCount == 271)
            && (cfg.replicationFactor == 0 ==> r.replicationFactor == 20)
            && (cfg.load == 0.0 ==> r.load == 1.25)
            && (cfg.partitionCount != 0 && cfg.replicationFactor != 0 && cfg.load != 0.0 ==> r == cfg)
            && r.sum64 == cfg.sum64
  {
  }

  // Ring successors

  /** Going clockwise from `x`, `y` is met before `z`. */
  predicate Between(x: nat, y: nat, z: nat) {
    if x < z then x < y < z else x < y || y < z
  }

  ghost predicate NamesDistinct(cfg: Config, names: set<Name>) {
    forall n, m :: n in names && m in names && cfg.sum64(n) == cfg.sum64(m) ==> n == m
  }

  /** `b` is the first of `names` met clockwise from `a`. */
  ghost predicate Successor(cfg: Config, names: set<Name>, a: Name, b: Name) {
    && b in names
    && forall n :: n in names && n != a ==> !Between(cfg.sum64(a), cfg.sum64(n), cfg.sum64(b))
  }

  /** The owner followed by its ring successors, one after the other, none twice. */
  ghost predicate Closest(cfg: Config, members: map<Name, Member>, owner: Member, r: seq<Member>) {
    && r != [] && r[0] == owner
    && (forall i :: 0 <= i < |r| ==> r[i].name in members && members[r[i].name] == r[i])
    && (forall i, j :: 0 <= i < j < |r| ==> r[i].name != r[j].name)
    && (forall i :: 0 < i < |r| ==> Successor(cfg, members.Keys, r[i - 1].name, r[i].name))
  }

  lemma SuccessorUnique(cfg: Config, names: set<Name>, a: Name, b: Name, b': Name)
    requires NamesDistinct(cfg, names) && a in names
    requires Successor(cfg, names, a, b) && Successor(cfg, names, a, b') && b != a && b' != a
    ensures b == b'
  {
    assert !Between(cfg.sum64(a), cfg.sum64(b'), cfg.sum64(b));
    assert !Between(cfg.sum64(a), cfg.sum64(b), cfg.sum64(b'));
    assert cfg.sum64(a) != cfg.sum64(b) && cfg.sum64(a) != cfg.sum64(b');
  }

  /** The owner and the length determine the list. */
  lemma {:induction false} ClosestUnique(cfg: Config, members: map<Name, Member>, owner: Member, r: seq<Member>, t: seq<Member>)
    requires NamesDistinct(cfg, members.Keys)
    requires Closest(cfg, members, owner, r) && Closest(cfg, members, owner, t) && |r| == |t|
    ensures r == t
  {
    if |r| > 1 {
      var k := |r| - 1;
      ClosestPrefix(cfg, members, owner, r);
      ClosestPrefix(cfg, members, owner, t);
      ClosestUnique(cfg, members, owner, r[..k], t[..k]);
      assert r[k - 1] == r[..k][k - 1] == t[k - 1];
      SuccessorUnique(cfg, members.Keys, r[k - 1].name, r[k].name, t[k].name);
      assert r == r[..k] + [r[k]] && t == t[..k] + [t[k]];
    }
  }

  lemma ClosestPrefix(cfg: Config, members: map<Name, Member>, owner: Member, r: seq<Member>)
    requires Closest(cfg, members, owner, r) && |r| > 1
    ensures Closest(cfg, members, owner, r[..|r| - 1])
  {
    hide Successor;
  }

  predicate IsCurrent(members: map<Name, Member>, m: Member) {
    m.name in members && members[m.name] == m
  }

  // Sorted name hashes

  lemma {:induction false} SortedAt(s: seq<nat>, i: nat, j: nat)
    requires Sorted(s) && i < j < |s|
    ensures s[i] <= s[j]
  {
    if i == 0 {
      assert s[j] == s[1..][j - 1];
      assert s[j] in multiset(s[1..]);
    } else {
      SortedAt(s[1..], i - 1, j - 1);
    }
  }

  lemma NoneTwice(s: seq<nat>, elements: set<nat>, i: nat, j: nat)
    requires multiset(s) == multiset(elements) && i < j < |s|
    ensures s[i] != s[j]
  {
    assert s == s[..j] + s[j..];
    assert multiset(s) == multiset(s[..j]) + multiset(s[j..]);
    assert s[i] in multiset(s[..j]) && s[j] in multiset(s[j..]);
    assert s[i] == s[j] ==> multiset(s)[s[i]] >= 2;
  }

  ghost predicate Increasing(s: seq<nat>) {
    forall i, j :: 0 <= i < j < |s| ==> s[i] < s[j]
  }

  lemma StrictlySorted(s: seq<nat>, elements: set<nat>)
    requires Sorted(s) && multiset(s) == multiset(elements)
    ensures Increasing(s)
  {
    forall i, j | 0 <= i < j < |s|
      ensures s[i] < s[j]
    {
      SortedAt(s, i, j);
      NoneTwice(s, elements, i, j);
    }
  }

  ghost function Hashes(cfg: Config, names: set<Name>): set<nat> {
    set n | n in names :: cfg.sum64(n)
  }

  /** The sorted hashes and the member behind each. */
  ghost predicate Hashed(cfg: Config, members: map<Name, Member>, keys: seq<nat>, kmems: map<nat, Member>) {
    && Increasing(keys)
    && (forall i :: 0 <= i < |keys| ==> keys[i] in kmems && IsAt(cfg, members, keys[i], kmems[keys[i]]))
    && (forall n :: n in members ==> cfg.sum64(n) in keys)
  }

  ghost predicate IsAt(cfg: Config, members: map<Name, Member>, key: nat, m: Member) {
    m.name in members && members[m.name] == m && cfg.sum64(m.name) == key
  }

  lemma NextIsSuccessor(cfg: Config, members: map<Name, Member>, keys: seq<nat>, kmems: map<nat, Member>, i: nat)
    requires NamesDistinct(cfg, members.Keys) && Hashed(cfg, members, keys, kmems) && i < |keys|
    ensures Successor(cfg, members.Keys, kmems[keys[i]].name, kmems[keys[Next(i, |keys|)]].name)
  {
    var a, b := kmems[keys[i]].name, kmems[keys[Next(i, |keys|)]].name;
    forall n | n in members && n != a
      ensures !Between(cfg.sum64(a), cfg.sum64(n), cfg.sum64(b))
    {
      var k :| 0 <= k < |keys| && keys[k] == cfg.sum64(n);
    }
  }

  function Wrap(start: nat, k: nat, n: nat): nat {
    if start + k < n then start + k else start + k - n
  }

  /** The members at `c` positions from `start` on. */
  ghost predicate Walked(keys: seq<nat>, kmems: map<nat, Member>, start: nat, r: seq<Member>) {
    && |r| <= |keys| && start < |keys|
    && forall k :: 0 <= k < |r| ==> keys[Wrap(start, k, |keys|)] in kmems && r[k] == kmems[keys[Wrap(start, k, |keys|)]]
  }

  lemma WalkedOne(keys: seq<nat>, kmems: map<nat, Member>, start: nat)
    requires start < |keys| && keys[start] in kmems
    ensures Walked(keys, kmems, start, [kmems[keys[start]]])
  {
  }

  lemma WalkedMore(keys: seq<nat>, kmems: map<nat, Member>, start: nat, r: seq<Member>)
    requires Walked(keys, kmems, start, r) && |r| < |keys| && keys[Wrap(start, |r|, |keys|)] in kmems
    ensures Walked(keys, kmems, start, r + [kmems[keys[Wrap(start, |r|, |keys|)]]])
  {
  }

  lemma WalkedClosest(cfg: Config, members: map<Name, Member>, keys: seq<nat>, kmems: map<nat, Member>, start: nat, r: seq<Member>)
    requires NamesDistinct(cfg, members.Keys) && Hashed(cfg, members, keys, kmems)
    requires Walked(keys, kmems, start, r) && r != []
    ensures Closest(cfg, members, kmems[keys[start]], r)
  {
    var n := |keys|;
    forall i | 0 < i < |r|
      ensures Successor(cfg, members.Keys, r[i - 1].name, r[i].name)
    {
      assert Wrap(start, i, n) == Next(Wrap(start, i - 1, n), n);
      NextIsSuccessor(cfg, members, keys, kmems, Wrap(start, i - 1, n));
    }
    forall i, j | 0 <= i < j < |r|
      ensures r[i].name != r[j].name
    {
      assert keys[Wrap(start, i, n)] != keys[Wrap(start, j, n)];
    }
    assert Wrap(start, 0, n) == start;
  }

  lemma AssignFirst(cfg: Config, s: Ring)
    ensures Assign(cfg, s, 0) == Some(Assignment(map[], map[]))
  {
  }

  lemma AssignNext(cfg: Config, s: Ring, n: nat, a: Assignment)
    requires Assign(cfg, s, n) == Some(a)
    ensures Assign(cfg, s, n + 1) == match Home(cfg, s, a.loads, n) case None => None case Some(m) => Some(Give(a, n, m))
  {
  }

  class Consistent {
    const config: Config
    var sortedSet: seq<nat>
    var ring: map<nat, Member>
    var members: map<Name, Member>
    var loads: map<Name, nat>
    var partitions: map<nat, Member>

    function State(): Ring
      reads this
    {
      Ring(sortedSet, ring, members, loads, partitions)
    }

    /** New of a nil slice: no member is added and no partition placed. */
    constructor (cfg: Config)
      ensures config == WithDefaults(cfg) && State() == EMPTY_RING
    {
      config := WithDefaults(cfg);
      sortedSet, ring, members, loads, partitions := [], map[], map[], map[], map[];
    }

    method DistributeWithLoad(partID: nat, start: nat, parts: map<nat, Member>, lds: map<Name, nat>)
      returns (ok: bool, a: Assignment)
      requires start < |sortedSet| || sortedSet == []
      ensures var home := Probe(State(), lds, AverageLoad(config, |members|), start, if |sortedSet| == 0 then 0 else |sortedSet| - 1);
              && (ok <==> home.Some?)
              && a == if ok then Give(Assignment(parts, lds), partID, home.value) else Assignment(parts, lds)
    {
      a := Assignment(parts, lds);
      var avgLoad := AverageLoad(config, |members|);
      var idx: nat, count: nat := start, 0;
      while true
        invariant sortedSet == [] ==> count == 0
        invariant sortedSet != [] ==> count <= |sortedSet| - 1 && idx < |sortedSet|
        invariant sortedSet != [] ==>
                    Probe(State(), lds, avgLoad, start, |sortedSet| - 1) == Probe(State(), lds, avgLoad, idx, |sortedSet| - 1 - count)
        decreases |sortedSet| - count
      {
        count := count + 1;
        if count >= |sortedSet| {
          return false, a;
        }
        var i := sortedSet[idx];
        if i !in ring {
          return false, a;
        }
        var member := ring[i];
        if Load(lds, member.name) + 1 <= avgLoad {
          return true, Give(a, partID, member);
        }
        idx := idx + 1;
        if idx >= |sortedSet| {
          idx := 0;
        }
      }
    }

    method DistributePartitions() returns (ok: bool)
      modifies this`loads, this`partitions
      ensures Outcome(State(), ok) == Distribute(config, old(State()))
    {
      hide Probe, StartOf, AverageLoad, Load, Assign, Give;
      var a := Assignment(map[], map[]);
      AssignFirst(config, State());
      ghost var s := State();
      var partID := 0;
      while partID < config.partitionCount
        invariant partID <= config.partitionCount && State() == s
        invariant Assign(config, s, partID) == Some(a)
      {
        var placed;
        AssignNext(config, s, partID, a);
        placed, a := DistributeWithLoad(partID, StartOf(config, sortedSet, partID), a.partitions, a.loads);
        if !placed {
          PanicStays(config, s, partID + 1, config.partitionCount);
          return false;
        }
        partID := partID + 1;
      }
      partitions, loads := a.partitions, a.loads;
      ok := true;
    }

    /** add. */
    method AddPoints(member: Member)
      modifies this`sortedSet, this`ring, this`members
      ensures State() == Insert(config, old(State()), member)
    {
      hide Sort, Point, PointsFrom, RingWith, Digits;
      var i := 0;
      while i < config.replicationFactor
        invariant i <= config.replicationFactor && members == old(members)
        invariant sortedSet + PointsFrom(config, member.name, i) == old(sortedSet) + PointsFrom(config, member.name, 0)
        invariant RingWith(ring, PointsFrom(config, member.name, i), member)
               == RingWith(old(ring), PointsFrom(config, member.name, 0), member)
      {
        var h := Point(config, member.name, i);
        NextPoint(config, member, i, sortedSet, ring);
        ring := ring[h := member];
        sortedSet := sortedSet + [h];
        i := i + 1;
      }
      NoPoint(config, member, i, sortedSet, ring);
      sortedSet := Sort(sortedSet);
      members := members[member.name := member];
    }

    method Join(member: Member) returns (ok: bool)
      modifies this
      ensures Outcome(State(), ok) == Add(config, old(State()), member)
    {
      if member.name in members {
        return true;
      }
      AddPoints(member);
      ok := DistributePartitions();
    }

    method DeletePoint(val: nat)
      modifies this`sortedSet
      ensures sortedSet == DelSlice(old(sortedSet), val)
    {
      var i := 0;
      while i < |sortedSet|
        invariant i <= |sortedSet| && sortedSet == old(sortedSet)
        invariant DelSlice(sortedSet, val) == sortedSet[..i] + DelSlice(sortedSet[i..], val)
      {
        if sortedSet[i] == val {
          assert sortedSet[i..][1..] == sortedSet[i + 1..];
          sortedSet := sortedSet[..i] + sortedSet[i + 1..];
          return;
        }
        assert sortedSet[i..][1..] == sortedSet[i + 1..];
        i := i + 1;
      }
    }

    method Leave(name: Name) returns (ok: bool)
      modifies this
      ensures Outcome(State(), ok) == Remove(config, old(State()), name)
    {
      if name !in members {
        return true;
      }
      var i := 0;
      while i < config.replicationFactor
        invariant i <= config.replicationFactor && members == old(members)
        invariant Without(State(), PointsFrom(config, name, i)) == Without(old(State()), PointsFrom(config, name, 0))
      {
        var h := Point(config, name, i);
        assert PointsFrom(config, name, i) == [h] + PointsFrom(config, name, i + 1);
        ring := ring - {h};
        DeletePoint(h);
        i := i + 1;
      }
      members := members - {name};
      if members == map[] {
        partitions := map[];
        return true;
      }
      ok := DistributePartitions();
    }

    /** The hash of every member's name, sorted, and the members by hash. */
    method HashNames() returns (keys: seq<nat>, kmems: map<nat, Member>)
      requires forall n :: n in members ==> members[n].name == n
      ensures |keys| == |members| && forall i :: 0 <= i < |keys| ==> keys[i] in kmems
      ensures NamesDistinct(config, members.Keys) ==> Hashed(config, members, keys, kmems)
    {
      hide Hashed, Gathered, NamesDistinct, Sort, Sorted;
      keys, kmems := [], map[];
      var left := members.Keys;
      GatheredNone(config, members);
      while left != {}
        invariant left <= members.Keys && |keys| == |members.Keys - left|
        invariant forall k :: k in multiset(keys) ==> k in kmems
        invariant NamesDistinct(config, members.Keys) ==> Gathered(config, members, members.Keys - left, keys, kmems)
        decreases left
      {
        var name :| name in left;
        var key := config.sum64(name);
        if NamesDistinct(config, members.Keys) {
          GatheredOne(config, members, members.Keys - left, keys, kmems, name);
        }
        OneLess(members.Keys, left, name);
        keys := keys + [key];
        kmems := kmems[key := members[name]];
        left := left - {name};
      }
      assert members.Keys - left == members.Keys;
      if NamesDistinct(config, members.Keys) {
        GatheredAll(config, members, keys, kmems);
      }
      SortSorts(keys);
      SameSize(keys, Sort(keys));
      keys := Sort(keys);
      forall i | 0 <= i < |keys|
        ensures keys[i] in kmems
      {
        assert keys[i] in multiset(keys);
      }
    }

    /** getClosestN. None is the error for too few members; `ok` is false when the partition
        has no owner to start from, a nil dereference. */
    method GetClosestN(partID: nat, count: nat) returns (r: Option<seq<Member>>, ok: bool)
      requires forall n :: n in members ==> members[n].name == n
      ensures ok <==> count > |members| || members == map[] || partID in partitions
      ensures r.None? <==> count > |members| || !ok
      ensures r.Some? && members != map[] ==> partID in partitions
      ensures r.Some? && members != map[] && NamesDistinct(config, members.Keys) && IsCurrent(members, partitions[partID]) ==>
                Closest(config, members, partitions[partID], r.value)
      ensures r.Some? && members != map[] && NamesDistinct(config, members.Keys) && IsCurrent(members, partitions[partID]) ==>
                |r.value| == if count == 0 then 1 else count
    {
      hide Hashed, Walked, Closest, NamesDistinct;
      if count > |members| {
        return None, true;
      }
      if members == map[] {
        return Some([]), true;
      }
      if partID !in partitions {
        return None, false;
      }
      var owner := partitions[partID];
      var keys, kmems := HashNames();
      var ownerKey := if owner.name in members then config.sum64(owner.name) else 0;
      var res: seq<Member> := [];
      ok := true;
      var idx := 0;
      while idx < |keys|
        invariant idx <= |keys| && res == []
        invariant forall i :: 0 <= i < idx ==> keys[i] != ownerKey
      {
        if keys[idx] == ownerKey {
          res := [kmems[keys[idx]]];
          break;
        }
        idx := idx + 1;
      }
      ghost var start := idx;
      ghost var good := NamesDistinct(config, members.Keys) && IsCurrent(members, owner);
      if good {
        OwnerFound(config, members, keys, kmems, owner);
        WalkedOne(keys, kmems, start);
      }
      while |res| < count
        invariant good ==> start < |keys| && idx == Wrap(start, |res| - 1, |keys|) && 1 <= |res| <= |keys|
        invariant good ==> Walked(keys, kmems, start, res) && |res| <= if count == 0 then 1 else count
      {
        idx := idx + 1;
        if idx >= |keys| {
          idx := 0;
        }
        if good {
          WalkedMore(keys, kmems, start, res);
        }
        res := res + [kmems[keys[idx]]];
      }
      if good {
        WalkedClosest(config, members, keys, kmems, start, res);
      }
      r := Some(res);
    }
  }

  lemma NextPoint(cfg: Config, member: Member, i: nat, points: seq<nat>, ring: map<nat, Member>)
    requires i < cfg.replicationFactor
    ensures var h := Point(cfg, member.name, i);
            && points + PointsFrom(cfg, member.name, i) == points + [h] + PointsFrom(cfg, member.name, i + 1)
            && RingWith(ring, PointsFrom(cfg, member.name, i), member)
            == RingWith(ring[h := member], PointsFrom(cfg, member.name, i + 1), member)
  {
    hide Point;
    var h := Point(cfg, member.name, i);
    assert PointsFrom(cfg, member.name, i) == [h] + PointsFrom(cfg, member.name, i + 1);
    assert PointsFrom(cfg, member.name, i)[1..] == PointsFrom(cfg, member.name, i + 1);
  }

  lemma NoPoint(cfg: Config, member: Member, i: nat, points: seq<nat>, ring: map<nat, Member>)
    requires i >= cfg.replicationFactor
    ensures points + PointsFrom(cfg, member.name, i) == points && RingWith(ring, PointsFrom(cfg, member.name, i), member) == ring
  {
  }

  lemma OneLess(all: set<Name>, left: set<Name>, name: Name)
    requires name in left && left <= all
    ensures all - (left - {name}) == all - left + {name}
    ensures name !in all - left && |all - left + {name}| == |all - left| + 1
  {
  }

  lemma SameSize(s: seq<nat>, t: seq<nat>)
    requires multiset(s) == multiset(t)
    ensures |s| == |t|
  {
    assert |multiset(s)| == |s| && |multiset(t)| == |t|;
  }

  /** The names in `done` have been hashed. */
  ghost predicate Gathered(cfg: Config, members: map<Name, Member>, done: set<Name>, keys: seq<nat>, kmems: map<nat, Member>)
    requires done <= members.Keys
  {
    && multiset(keys) == multiset(Hashes(cfg, done))
    && forall n :: n in done ==> cfg.sum64(n) in kmems && kmems[cfg.sum64(n)] == members[n]
  }

  lemma GatheredNone(cfg: Config, members: map<Name, Member>)
    ensures Gathered(cfg, members, {}, [], map[])
    ensures members.Keys - members.Keys == {}
  {
    assert Hashes(cfg, {}) == {};
  }

  lemma GatheredOne(cfg: Config, members: map<Name, Member>, done: set<Name>, keys: seq<nat>, kmems: map<nat, Member>, name: Name)
    requires NamesDistinct(cfg, members.Keys) && done <= members.Keys && name in members && name !in done
    requires Gathered(cfg, members, done, keys, kmems)
    ensures Gathered(cfg, members, done + {name}, keys + [cfg.sum64(name)], kmems[cfg.sum64(name) := members[name]])
  {
    var key := cfg.sum64(name);
    assert Hashes(cfg, done + {name}) == Hashes(cfg, done) + {key};
    assert key !in Hashes(cfg, done);
    AddOne(Hashes(cfg, done), key);
  }

  lemma GatheredAll(cfg: Config, members: map<Name, Member>, keys: seq<nat>, kmems: map<nat, Member>)
    requires NamesDistinct(cfg, members.Keys) && Gathered(cfg, members, members.Keys, keys, kmems)
    requires forall n :: n in members ==> members[n].name == n
    ensures Hashed(cfg, members, Sort(keys), kmems)
  {
    hide Sorted, Sort, NamesDistinct;
    SortSorts(keys);
    StrictlySorted(Sort(keys), Hashes(cfg, members.Keys));
    ElementsOf(Sort(keys), Hashes(cfg, members.Keys));
    var sorted := Sort(keys);
    forall i | 0 <= i < |sorted|
      ensures sorted[i] in kmems && IsAt(cfg, members, sorted[i], kmems[sorted[i]])
    {
      assert sorted[i] in Hashes(cfg, members.Keys);
      var n :| n in members && cfg.sum64(n) == sorted[i];
    }
  }

  lemma OwnerFound(cfg: Config, members: map<Name, Member>, keys: seq<nat>, kmems: map<nat, Member>, owner: Member)
    requires NamesDistinct(cfg, members.Keys) && Hashed(cfg, members, keys, kmems)
    requires IsCurrent(members, owner)
    ensures cfg.sum64(owner.name) in keys && kmems[cfg.sum64(owner.name)] == owner
  {
    var i :| 0 <= i < |keys| && keys[i] == cfg.sum64(owner.name);
  }

  lemma {:induction false} PanicStays(cfg: Config, s: Ring, n: nat, m: nat)
    requires n <= m && Assign(cfg, s, n).None?
    ensures Assign(cfg, s, m).None?
  {
    if n < m {
      PanicStays(cfg, s, n, m - 1);
    }
  }
}
