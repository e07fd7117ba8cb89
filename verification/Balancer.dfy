/** Moving data between members. Every member balances at the same time: a move locks its
    fragment, exports the first live table, sends it to each target in turn, and drops it
    once all of them merged it. Each delivery can fail, or stop part-way through a merge.
    Replication, writes and compactions go on meanwhile. */
module Balancer {
  import opened Codec
  import opened RingModel
  import opened Placement
  import M = Merge
  import SM = StoreModel

  datatype Kind = Primary | Backup

  /** A fragment: a member's primary or backup copy of one map's part of a partition. */
  datatype Place = Place(node: Name, kind: Kind, part: nat, dmap: string)

  datatype Table = Table(entries: map<nat, Entry>, recycled: bool, recycledAt: int)

  type Fragment = seq<Table>

  // What a fragment holds

  function View(f: Fragment): map<nat, Entry> {
    if f == [] then map[] else View(f[1..]) + f[0].entries
  }

  /** The fragment has a version of `h` at least as new as `t`. */
  predicate Has(f: Fragment, h: nat, t: int) {
    var v := View(f); h in v && v[h].timestamp >= t
  }

  /** The first table that is not recycled. */
  function ExportIndex(f: Fragment): Option<nat> {
    if f == [] then None
    else if !f[0].recycled then Some(0)
    else match ExportIndex(f[1..])
      case None => None
      case Some(i) => Some(i + 1)
  }

  lemma {:induction false} ExportIndexAt(f: Fragment)
    ensures ExportIndex(f).Some? ==> ExportIndex(f).value < |f|
  {
    if f != [] && f[0].recycled {
      ExportIndexAt(f[1..]);
    }
  }

  /** Dropping a table loses at most what that table holds. */
  lemma {:induction false} RemoveAtKeeps(f: Fragment, i: nat, h: nat)
    requires i < |f| && h in View(f)
    ensures (h in View(SM.RemoveAt(f, i)) && View(SM.RemoveAt(f, i))[h] == View(f)[h]) || (h in f[i].entries && View(f)[h] == f[i].entries[h])
  {
    if i == 0 {
      assert SM.RemoveAt(f, i) == f[1..];
    } else {
      assert SM.RemoveAt(f, i)[1..] == SM.RemoveAt(f[1..], i - 1);
      if h !in f[0].entries {
        RemoveAtKeeps(f[1..], i - 1, h);
      }
    }
  }

  /** A table's own versions are in its fragment, when no key is in two tables. */
  predicate Unique(f: Fragment) {
    f == [] || (Unique(f[1..]) && forall h :: h in f[0].entries ==> h !in View(f[1..]))
  }

  lemma {:induction false} UniqueView(f: Fragment, i: nat, h: nat)
    requires Unique(f) && i < |f| && h in f[i].entries
    ensures h in View(f) && View(f)[h] == f[i].entries[h]
  {
    if i > 0 {
      UniqueView(f[1..], i - 1, h);
    }
  }

  lemma {:induction false} RemoveAtUnique(f: Fragment, i: nat)
    requires Unique(f) && i < |f|
    ensures Unique(SM.RemoveAt(f, i))
    ensures forall h :: h in View(SM.RemoveAt(f, i)) ==> h in View(f)
  {
    if i == 0 {
      assert SM.RemoveAt(f, i) == f[1..];
    } else {
      assert SM.RemoveAt(f, i)[1..] == SM.RemoveAt(f[1..], i - 1);
      RemoveAtUnique(f[1..], i - 1);
    }
  }

  // Targets

  /** The last `n` owners, newest first; None when this member is among them. */
  function LastOwners(this_: Name, owners: Owners, n: nat): Option<seq<Member>>
    decreases n
  {
    if n == 0 || owners == [] then Some([])
    else
      var last := owners[|owners| - 1];
      if last.name == this_ then None
      else match LastOwners(this_, owners[..|owners| - 1], n - 1)
        case None => None
        case Some(rest) => Some([last] + rest)
  }

  /** Which step moves a table, with the owner lists it saw. */
  datatype Reason =
    | Promote(primaryOwners: Owners)
    | MovePrimary(primaryOwners: Owners)
    | MoveBackup(primaryOwners: Owners, backupOwners: Owners)

  /** Copies of one partition of one map. */
  predicate SameMap(p: Place, q: Place) {
    p.part == q.part && p.dmap == q.dmap
  }

  function PlaceOf(m: Member, kind: Kind, from: Place): Place {
    Place(m.name, kind, from.part, from.dmap)
  }

  function PlacesOf(ms: seq<Member>, kind: Kind, from: Place): seq<Place> {
    if ms == [] then [] else [PlaceOf(ms[0], kind, from)] + PlacesOf(ms[1..], kind, from)
  }

  predicate OwnedBy(this_: Name, owners: Owners) {
    owners != [] && owners[|owners| - 1].name == this_
  }

  /** Where the step sends the fragment's table; None when it leaves the fragment alone. */
  function TargetsOf(replicaCount: nat, from: Place, reason: Reason): Option<seq<Place>> {
    match reason
    case Promote(owners) =>
      if replicaCount > 1 && from.kind.Backup? && OwnedBy(from.node, owners) then Some([from.(kind := Primary)]) else None
    case MovePrimary(owners) =>
      if from.kind.Primary? && owners != [] && !OwnedBy(from.node, owners) then Some([PlaceOf(owners[|owners| - 1], Primary, from)]) else None
    case MoveBackup(primaryOwners, owners) =>
      if !from.kind.Backup? || replicaCount == 0 || OwnedBy(from.node, primaryOwners) then None
      else match LastOwners(from.node, owners, replicaCount - 1)
        case None => None
        case Some(ms) => if ms == [] then None else Some(PlacesOf(ms, Backup, from))
  }

  /** They are the newest `n` owners, and this member is none of them. */
  lemma {:induction false} LastOwnersAre(this_: Name, owners: Owners, n: nat)
    ensures var k := if n <= |owners| then n else |owners|;
            LastOwners(this_, owners, n).None? <==> exists i :: |owners| - k <= i < |owners| && owners[i].name == this_
    ensures LastOwners(this_, owners, n).Some? ==> |LastOwners(this_, owners, n).value| == if n <= |owners| then n else |owners|
    ensures var r := LastOwners(this_, owners, n);
            r.Some? ==> forall i :: 0 <= i < |r.value| ==> i < |owners| && r.value[i] == owners[|owners| - 1 - i]
    decreases n
  {
    if n > 0 && owners != [] {
      LastOwnersAre(this_, owners[..|owners| - 1], n - 1);
    }
  }

  lemma {:induction false} PlacesOfAt(ms: seq<Member>, kind: Kind, from: Place)
    ensures |PlacesOf(ms, kind, from)| == |ms|
    ensures forall i :: 0 <= i < |ms| ==> PlacesOf(ms, kind, from)[i] == PlaceOf(ms[i], kind, from)
  {
    if ms != [] {
      PlacesOfAt(ms[1..], kind, from);
    }
  }

  /** A step never moves to nobody, never back to the fragment it moves from, and only to
      fragments of the same partition and map. */
  lemma TargetsSafe(replicaCount: nat, from: Place, reason: Reason)
    ensures var ts := TargetsOf(replicaCount, from, reason);
            ts.Some? ==> ts.value != [] && forall i :: 0 <= i < |ts.value| ==> ts.value[i] != from && SameMap(ts.value[i], from)
  {
    if reason.MoveBackup? && replicaCount > 0 {
      LastOwnersAre(from.node, reason.backupOwners, replicaCount - 1);
      var ms := LastOwners(from.node, reason.backupOwners, replicaCount - 1);
      if ms.Some? {
        PlacesOfAt(ms.value, Backup, from);
      }
    }
  }

  /** The loop of backupCopies that gathers the current replica owners. */
  method CurrentOwners(this_: Name, owners: Owners, replicaCount: nat) returns (r: Option<seq<Member>>)
    requires replicaCount > 0
    ensures r == LastOwners(this_, owners, replicaCount - 1)
  {
    var counter := 1;
    var current: seq<Member> := [];
    var i := |owners|;
    assert owners[..i] == owners;
    NothingBefore(LastOwners(this_, owners, replicaCount - 1));
    while i > 0
      invariant 0 <= i <= |owners| && counter == 1 + |owners| - i && counter <= replicaCount
      invariant LastOwners(this_, owners, replicaCount - 1) ==
                Prefixed(current, LastOwners(this_, owners[..i], replicaCount - counter))
    {
      if counter > replicaCount - 1 {
        break;
      }
      counter := counter + 1;
      var owner := owners[i - 1];
      assert owners[..i][..i - 1] == owners[..i - 1];
      if this_ == owner.name {
        return None;
      }
      assert forall rest :: current + ([owner] + rest) == current + [owner] + rest;
      current := current + [owner];
      i := i - 1;
    }
    assert current + [] == current;
    r := Some(current);
  }

  function Prefixed(a: seq<Member>, r: Option<seq<Member>>): Option<seq<Member>> {
    match r
    case None => None
    case Some(b) => Some(a + b)
  }

  lemma NothingBefore(r: Option<seq<Member>>)
    ensures Prefixed([], r) == r
  {
    if r.Some? {
      assert [] + r.value == r.value;
    }
  }

  // The cluster

  /** A move under way: the fragment it holds the lock of, the exported table and its index,
      the targets, how many were tried, whether one had left, and who merged it in full.
      `begun` orders the moves by when they took their lock. */
  datatype Move = Move(from: Place, index: nat, table: map<nat, Entry>, targets: seq<Place>, next: nat, departed: bool,
                       merged: seq<Place>, begun: nat)

  /** `copies` are exported tables that replication sends without holding the lock. */
  datatype State = State(fragments: map<Place, Fragment>, live: set<Name>, moves: map<nat, Move>, copies: set<map<nat, Entry>>, clock: nat)

  function At(s: State, p: Place): Fragment {
    if p in s.fragments then s.fragments[p] else []
  }

  predicate Locked(s: State, p: Place) {
    exists id :: id in s.moves && s.moves[id].from == p
  }

  /** `order` is a part of an iteration over the table; `Merged` covers all of it. */
  datatype Delivery =
    | Departed
    | Failed(order: seq<M.Pair>, after: Fragment)
    | Merged(order: seq<M.Pair>, after: Fragment)

  datatype Event =
    | Begin(id: nat, from: Place, reason: Reason)
    | Deliver(id: nat, delivery: Delivery)
    | Finish(id: nat)
    | Export(place: Place, index: nat)
    | Copy(table: map<nat, Entry>, to: Place, order: seq<M.Pair>, after: Fragment)
    | Write(place: Place, pair: M.Pair, after: Fragment)
    | Compact(place: Place, cleanup: bool, now: int, timeout: int, after: Fragment)

  predicate Drawn(table: map<nat, Entry>, order: seq<M.Pair>) {
    forall i :: 0 <= i < |order| ==> order[i].hkey in table && order[i].entry == table[order[i].hkey]
  }

  /** The receiver is up, its fragment is free, and `after` holds what merging left. */
  ghost predicate Merges(s: State, to: Place, order: seq<M.Pair>, after: Fragment) {
    to.node in s.live && !Locked(s, to) && Unique(after) && View(after) == M.MergeAll(View(At(s, to)), order)
  }

  /** A client's write, stamped no older than what it replaces. */
  ghost predicate Writes(s: State, to: Place, pair: M.Pair, after: Fragment) {
    && to.node in s.live && !Locked(s, to) && Unique(after)
    && (pair.hkey in View(At(s, to)) ==> View(At(s, to))[pair.hkey].timestamp <= pair.entry.timestamp)
    && View(after) == View(At(s, to))[pair.hkey := SM.Item(pair.entry)]
  }

  predicate Droppable(t: Table, now: int, timeout: int) {
    t.recycled && now / 1000000 >= (timeout + t.recycledAt) / 1000000
  }

  /** The tail is an expired recycled table with entries, and another table stays. */
  ghost predicate TailLost(f: Fragment, now: int, timeout: int) {
    && f != [] && Droppable(f[|f| - 1], now, timeout) && f[|f| - 1].entries != map[]
    && exists j :: 0 <= j < |f| - 1 && !Droppable(f[j], now, timeout)
  }

  /** One compaction call: it rearranges the tables, and when it cleans up it also drops the
      expired recycled ones, the tail included. */
  ghost predicate Compacts(s: State, to: Place, cleanup: bool, now: int, timeout: int, after: Fragment) {
    var f := At(s, to);
    && to.node in s.live && !Locked(s, to) && Unique(after)
    && View(after) == if cleanup && TailLost(f, now, timeout) then View(f) - f[|f| - 1].entries.Keys else View(f)
  }

  ghost predicate Enabled(replicaCount: nat, s: State, e: Event) {
    match e
    case Begin(id, from, reason) =>
      id !in s.moves && from.node in s.live && !Locked(s, from) && ExportIndex(At(s, from)).Some? && TargetsOf(replicaCount, from, reason).Some?
    case Deliver(id, d) =>
      id in s.moves && s.moves[id].next < |s.moves[id].targets| &&
      var m := s.moves[id];
      (match d
       case Departed => true
       case Failed(order, after) => order == [] || (Drawn(m.table, order) && Merges(s, m.targets[m.next], order, after))
       case Merged(order, after) => M.Ranges(m.table, order) && Merges(s, m.targets[m.next], order, after))
    case Finish(id) => id in s.moves && s.moves[id].next == |s.moves[id].targets|
    case Export(place, index) => place.node in s.live && index < |At(s, place)|
    case Copy(table, to, order, after) => table in s.copies && Drawn(table, order) && Merges(s, to, order, after)
    case Write(place, pair, after) => Writes(s, place, pair, after)
    case Compact(place, cleanup, now, timeout, after) => Compacts(s, place, cleanup, now, timeout, after)
  }

  /** A clean-up that takes entries with it. */
  ghost predicate Loses(s: State, e: Event) {
    e.Compact? && e.cleanup && TailLost(At(s, e.place), e.now, e.timeout)
  }

  function OnDeliver(s: State, id: nat, d: Delivery): State
    requires id in s.moves && s.moves[id].next < |s.moves[id].targets|
  {
    var m := s.moves[id];
    var target := m.targets[m.next];
    match d
    case Departed => s.(moves := s.moves[id := m.(next := m.next + 1, departed := true)])
    case Failed(order, after) =>
      s.(fragments := if order == [] then s.fragments else s.fragments[target := after], moves := s.moves - {id})
    case Merged(order, after) =>
      s.(fragments := s.fragments[target := after], moves := s.moves[id := m.(next := m.next + 1, merged := m.merged + [target])])
  }

  function OnFinish(s: State, id: nat): State
    requires id in s.moves
  {
    var m := s.moves[id];
    s.(fragments := if m.departed || m.index >= |At(s, m.from)| then s.fragments
                    else s.fragments[m.from := SM.RemoveAt(At(s, m.from), m.index)],
       moves := s.moves - {id})
  }

  ghost function Step(replicaCount: nat, s: State, e: Event): State
    requires Enabled(replicaCount, s, e)
  {
    match e
    case Begin(id, from, reason) =>
      ExportIndexAt(At(s, from));
      var i := ExportIndex(At(s, from)).value;
      var m := Move(from, i, At(s, from)[i].entries, TargetsOf(replicaCount, from, reason).value, 0, false, [], s.clock);
      s.(moves := s.moves[id := m], clock := s.clock + 1)
    case Deliver(id, d) => OnDeliver(s, id, d)
    case Finish(id) => OnFinish(s, id)
    case Export(place, index) => s.(copies := s.copies + {At(s, place)[index].entries})
    case Copy(table, to, order, after) => s.(fragments := s.fragments[to := after])
    case Write(place, pair, after) => s.(fragments := s.fragments[place := after])
    case Compact(place, _, _, _, after) => s.(fragments := s.fragments[place := after])
  }

  // Merging and writing only add

  ghost predicate Grows(f: Fragment, g: Fragment) {
    forall h, t :: Has(f, h, t) ==> Has(g, h, t)
  }

  lemma MergeGrows(f: Fragment, order: seq<M.Pair>, g: Fragment)
    requires View(g) == M.MergeAll(View(f), order)
    ensures Grows(f, g)
    ensures forall i :: 0 <= i < |order| ==> Has(g, order[i].hkey, order[i].entry.timestamp)
  {
    hide M.MergeAll;
    M.MergeKeepsNewest(View(f), order);
    forall h, t | Has(f, h, t)
      ensures Has(g, h, t)
    {
      assert M.Candidate(View(f), order, h, View(f)[h]);
    }
    forall i | 0 <= i < |order|
      ensures Has(g, order[i].hkey, order[i].entry.timestamp)
    {
      assert M.Candidate(View(f), order, order[i].hkey, SM.Item(order[i].entry));
    }
  }

  /** The places an event leaves with at least what they had. */
  ghost predicate AllGrow(s: State, r: State) {
    forall p :: Grows(At(s, p), At(r, p))
  }

  lemma SetGrows(s: State, to: Place, after: Fragment)
    requires Grows(At(s, to), after)
    ensures AllGrow(s, s.(fragments := s.fragments[to := after]))
  {
  }

  // The invariant

  /** Nobody holds the lock of `q`, or a move that began after `m` does. */
  ghost predicate Later(s: State, m: Move, q: Place) {
    forall id :: id in s.moves && s.moves[id].from == q ==> s.moves[id].begun > m.begun
  }

  ghost predicate Witness(s: State, m: Move, h: nat, t: int, q: Place) {
    q != m.from && SameMap(q, m.from) && q.node in s.live && Has(At(s, q), h, t) && Later(s, m, q)
  }

  /** Once a target has merged the table, each of its versions is held by another fragment of
      the same map, where no earlier move can take it away. */
  ghost predicate Backed(s: State, m: Move) {
    m.merged != [] ==> forall h :: h in m.table ==> exists q :: Witness(s, m, h, m.table[h].timestamp, q)
  }

  /** The lock keeps the exported table in place. */
  ghost predicate Kept(s: State, m: Move) {
    && m.from.node in s.live
    && m.index < |At(s, m.from)| && At(s, m.from)[m.index].entries == m.table
    && m.begun < s.clock
  }

  ghost predicate Targeted(m: Move) {
    && m.targets != []
    && (forall i :: 0 <= i < |m.targets| ==> m.targets[i] != m.from && SameMap(m.targets[i], m.from))
    && m.next <= |m.targets|
    && (!m.departed ==> m.merged == m.targets[..m.next])
  }

  ghost predicate Apart(s: State) {
    forall a, b :: a in s.moves && b in s.moves && a != b ==> s.moves[a].from != s.moves[b].from && s.moves[a].begun != s.moves[b].begun
  }

  ghost predicate AllUnique(s: State) {
    forall p :: p in s.fragments ==> Unique(s.fragments[p])
  }

  ghost predicate Inv(s: State) {
    && AllUnique(s) && Apart(s)
    && forall id :: id in s.moves ==> Kept(s, s.moves[id]) && Targeted(s.moves[id]) && Backed(s, s.moves[id])
  }

  // Conservation

  /** Some live member holds, in a fragment of the partition and map of `m`, a version of `h` at
      least as new as `t`. Keys of different maps can have one hash, so the map matters. */
  ghost predicate Held(s: State, m: Place, h: nat, t: int) {
    exists p: Place :: SameMap(p, m) && p.node in s.live && Has(At(s, p), h, t)
  }

  /** The newest timestamp held for any key of any map does not decrease. */
  ghost predicate Conserves(s: State, r: State) {
    forall m, h, t :: Held(s, m, h, t) ==> Held(r, m, h, t)
  }

  lemma GrowConserves(s: State, r: State)
    requires AllGrow(s, r) && s.live == r.live
    ensures Conserves(s, r)
  {
    hide Has;
    forall o, h, t | Held(s, o, h, t)
      ensures Held(r, o, h, t)
    {
      var p: Place :| SameMap(p, o) && p.node in s.live && Has(At(s, p), h, t);
      assert Grows(At(s, p), At(r, p));
    }
  }

  /** The places a move can lose a version from. */
  lemma DropLoses(s: State, m: Move, h: nat, t: int)
    requires Kept(s, m) && Has(At(s, m.from), h, t)
    ensures Has(SM.RemoveAt(At(s, m.from), m.index), h, t) || (h in m.table && m.table[h].timestamp >= t)
  {
    RemoveAtKeeps(At(s, m.from), m.index, h);
  }

  lemma DropConserves(s: State, id: nat)
    requires Inv(s) && id in s.moves && s.moves[id].next == |s.moves[id].targets|
    ensures Conserves(s, OnFinish(s, id))
  {
    hide Has, AllUnique, Apart, Later;
    var m, r := s.moves[id], OnFinish(s, id);
    assert Kept(s, m) && Targeted(m) && Backed(s, m);
    forall o, h, t | Held(s, o, h, t)
      ensures Held(r, o, h, t)
    {
      var p: Place :| SameMap(p, o) && p.node in s.live && Has(At(s, p), h, t);
      if m.departed || p != m.from {
        assert At(r, p) == At(s, p);
      } else {
        DropLoses(s, m, h, t);
        if Has(SM.RemoveAt(At(s, p), m.index), h, t) {
          assert Has(At(r, p), h, t);
        } else {
          assert m.merged == m.targets[..m.next] == m.targets;
          var q :| Witness(s, m, h, m.table[h].timestamp, q);
          HasLess(At(s, q), h, m.table[h].timestamp, t);
          assert At(r, q) == At(s, q);
        }
      }
    }
  }

  lemma HasLess(f: Fragment, h: nat, t: int, u: int)
    requires Has(f, h, t) && u <= t
    ensures Has(f, h, u)
  {
  }

  // Every step keeps the invariant

  /** The locks of `r` were held in `s` by moves as old, or were taken after `m` began. */
  ghost predicate NoOlderLock(s: State, r: State, m: Move) {
    forall id :: id in r.moves ==>
      (id in s.moves && s.moves[id].from == r.moves[id].from && s.moves[id].begun == r.moves[id].begun) || r.moves[id].begun > m.begun
  }

  lemma GrowBacked(s: State, r: State, m: Move)
    requires Backed(s, m) && AllGrow(s, r) && s.live == r.live && NoOlderLock(s, r, m)
    ensures Backed(r, m)
  {
    hide Has;
    if m.merged != [] {
      forall h | h in m.table
        ensures exists q :: Witness(r, m, h, m.table[h].timestamp, q)
      {
        var q :| Witness(s, m, h, m.table[h].timestamp, q);
        assert Grows(At(s, q), At(r, q));
        assert Later(r, m, q);
        assert Witness(r, m, h, m.table[h].timestamp, q);
      }
    }
  }

  /** An event that changes one free fragment, for the better, and no move but `id`. */
  lemma ChangeOne(s: State, to: Place, after: Fragment, other: nat)
    requires Inv(s) && other in s.moves && !Locked(s, to) && Grows(At(s, to), after)
    ensures var r := s.(fragments := s.fragments[to := after]); Kept(r, s.moves[other]) && Backed(r, s.moves[other])
  {
    hide Has, Grows, AllUnique, Apart;
    var r := s.(fragments := s.fragments[to := after]);
    var m := s.moves[other];
    SetGrows(s, to, after);
    assert m.from != to;
    GrowBacked(s, r, m);
  }

  lemma ChangeOneInv(s: State, to: Place, after: Fragment)
    requires Inv(s) && !Locked(s, to) && Grows(At(s, to), after) && Unique(after)
    ensures var r := s.(fragments := s.fragments[to := after]); Inv(r) && Conserves(s, r)
  {
    hide Has, Grows, Kept, Backed, Targeted, Unique;
    var r := s.(fragments := s.fragments[to := after]);
    SetGrows(s, to, after);
    GrowConserves(s, r);
    forall id | id in r.moves
      ensures Kept(r, r.moves[id]) && Targeted(r.moves[id]) && Backed(r, r.moves[id])
    {
      ChangeOne(s, to, after, id);
    }
  }

  lemma WriteGrows(s: State, to: Place, pair: M.Pair, after: Fragment)
    requires Writes(s, to, pair, after)
    ensures Grows(At(s, to), after)
  {
  }

  /** A move that ends without dropping frees its fragment. */
  lemma EndInv(s: State, id: nat)
    requires Inv(s) && id in s.moves
    ensures Inv(s.(moves := s.moves - {id}))
  {
    hide Has, AllUnique;
    var r := s.(moves := s.moves - {id});
    AllUniqueSame(s, r);
    forall other | other in r.moves
      ensures Kept(r, r.moves[other]) && Targeted(r.moves[other]) && Backed(r, r.moves[other])
    {
      EndOther(s, id, other);
    }
  }

  lemma EndOther(s: State, id: nat, other: nat)
    requires Inv(s) && id in s.moves && other in s.moves && other != id
    ensures var r := s.(moves := s.moves - {id}); Kept(r, s.moves[other]) && Backed(r, s.moves[other])
  {
    hide Has, AllUnique, Apart;
    var r := s.(moves := s.moves - {id});
    Same(s, r);
    GrowBacked(s, r, s.moves[other]);
  }

  lemma Same(s: State, r: State)
    requires s.fragments == r.fragments
    ensures AllGrow(s, r)
  {
    assert forall p :: At(s, p) == At(r, p);
  }

  lemma BeginInv(replicaCount: nat, s: State, e: Event)
    requires Inv(s) && e.Begin? && Enabled(replicaCount, s, e)
    ensures Inv(Step(replicaCount, s, e))
  {
    hide Has, TargetsOf, ExportIndex;
    var r := Step(replicaCount, s, e);
    TargetsSafe(replicaCount, e.from, e.reason);
    ExportIndexAt(At(s, e.from));
    Same(s, r);
    forall id | id in r.moves && id != e.id
      ensures Kept(r, r.moves[id]) && Targeted(r.moves[id]) && Backed(r, r.moves[id])
    {
      GrowBacked(s, r, s.moves[id]);
    }
    assert Targeted(r.moves[e.id]);
  }

  /** A full delivery backs the table at its target. */
  lemma MergedBacks(s: State, r: State, m: Move, m': Move, to: Place, order: seq<M.Pair>)
    requires to != m.from && SameMap(to, m.from) && to.node in r.live && Later(r, m', to) && M.Ranges(m.table, order)
    requires forall i :: 0 <= i < |order| ==> Has(At(r, to), order[i].hkey, order[i].entry.timestamp)
    requires m'.from == m.from && m'.table == m.table
    ensures Backed(r, m')
  {
    hide Has;
    forall h | h in m'.table
      ensures exists q :: Witness(r, m', h, m'.table[h].timestamp, q)
    {
      var i :| 0 <= i < |order| && order[i] == M.Pair(h, m.table[h]);
      assert Witness(r, m', h, m'.table[h].timestamp, to);
    }
  }

  lemma DeliverInv(replicaCount: nat, s: State, e: Event)
    requires Inv(s) && e.Deliver? && Enabled(replicaCount, s, e)
    ensures Inv(Step(replicaCount, s, e)) && Conserves(s, Step(replicaCount, s, e))
  {
    var m := s.moves[e.id];
    var to := m.targets[m.next];
    match e.delivery
    case Departed => DepartedInv(s, e.id);
    case Failed(order, after) =>
      if order == [] {
        EndInv(s, e.id);
        Same(s, s.(moves := s.moves - {e.id}));
        GrowConserves(s, s.(moves := s.moves - {e.id}));
      } else {
        FailedInv(s, e.id, to, order, after);
      }
    case Merged(order, after) => MergedInv(s, e.id, order, after);
  }

  lemma FailedInv(s: State, id: nat, to: Place, order: seq<M.Pair>, after: Fragment)
    requires Inv(s) && id in s.moves && Merges(s, to, order, after)
    ensures var r := s.(fragments := s.fragments[to := after], moves := s.moves - {id}); Inv(r) && Conserves(s, r)
  {
    hide Inv, View, Unique, Has;
    MergeGrows(At(s, to), order, after);
    ChangeOneInv(s, to, after);
    var changed := s.(fragments := s.fragments[to := after]);
    EndInv(changed, id);
    assert changed.(moves := changed.moves - {id}) == s.(fragments := s.fragments[to := after], moves := s.moves - {id});
    ConservesSame(s, changed, changed.(moves := changed.moves - {id}));
  }

  lemma ConservesSame(s: State, r: State, r': State)
    requires Conserves(s, r) && r'.fragments == r.fragments && r'.live == r.live
    ensures Conserves(s, r')
  {
    hide Has;
    forall o, h, t | Held(s, o, h, t)
      ensures Held(r', o, h, t)
    {
      var p: Place :| SameMap(p, o) && p.node in r.live && Has(At(r, p), h, t);
      assert At(r', p) == At(r, p);
    }
  }

  lemma DepartedInv(s: State, id: nat)
    requires Inv(s) && id in s.moves && s.moves[id].next < |s.moves[id].targets|
    ensures var r := OnDeliver(s, id, Departed); Inv(r) && Conserves(s, r)
  {
    hide Has, AllUnique;
    var r := OnDeliver(s, id, Departed);
    AllUniqueSame(s, r);
    Same(s, r);
    GrowConserves(s, r);
    forall other | other in r.moves
      ensures Kept(r, r.moves[other]) && Targeted(r.moves[other]) && Backed(r, r.moves[other])
    {
      GrowBacked(s, r, s.moves[other]);
      if other == id {
        SameBacked(r, s.moves[id], r.moves[id]);
      }
    }
  }

  lemma SameBacked(s: State, m: Move, m': Move)
    requires Backed(s, m) && m'.from == m.from && m'.table == m.table && m'.begun == m.begun && m'.merged == m.merged
    ensures Backed(s, m')
  {
    hide Has;
    if m'.merged != [] {
      forall h | h in m'.table
        ensures exists q :: Witness(s, m', h, m'.table[h].timestamp, q)
      {
        var q :| Witness(s, m, h, m.table[h].timestamp, q);
        assert Witness(s, m', h, m'.table[h].timestamp, q);
      }
    }
  }

  lemma MergedInv(s: State, id: nat, order: seq<M.Pair>, after: Fragment)
    requires Inv(s) && id in s.moves && s.moves[id].next < |s.moves[id].targets|
    requires M.Ranges(s.moves[id].table, order) && Merges(s, s.moves[id].targets[s.moves[id].next], order, after)
    ensures var r := OnDeliver(s, id, Merged(order, after)); Inv(r) && Conserves(s, r)
  {
    hide Has, View, Unique, AllUnique, Grows, Kept, Targeted, Backed;
    var m := s.moves[id];
    var to, r := m.targets[m.next], OnDeliver(s, id, Merged(order, after));
    MergeGrows(At(s, to), order, after);
    ChangeOneInv(s, to, after);
    var changed := s.(fragments := s.fragments[to := after]);
    ConservesSame(s, changed, r);
    AllUniqueSame(changed, r);
    assert Apart(r);
    forall other | other in r.moves
      ensures Kept(r, r.moves[other]) && Targeted(r.moves[other]) && Backed(r, r.moves[other])
    {
      if other == id {
        MergedMove(s, id, order, after);
      } else {
        MovedOn(changed, r, id, other);
      }
    }
  }

  /** One move goes on; the fragments and the other moves stay. */
  lemma MovedOn(s: State, r: State, id: nat, other: nat)
    requires Inv(s) && id in s.moves && other in s.moves && other != id
    requires id in r.moves && r == s.(moves := s.moves[id := r.moves[id]])
    requires r.moves[id].from == s.moves[id].from && r.moves[id].begun == s.moves[id].begun
    ensures Kept(r, s.moves[other]) && Targeted(s.moves[other]) && Backed(r, s.moves[other])
  {
    hide Has, AllUnique, Apart;
    Same(s, r);
    GrowBacked(s, r, s.moves[other]);
  }

  lemma MergedMove(s: State, id: nat, order: seq<M.Pair>, after: Fragment)
    requires Inv(s) && id in s.moves && s.moves[id].next < |s.moves[id].targets|
    requires M.Ranges(s.moves[id].table, order) && Merges(s, s.moves[id].targets[s.moves[id].next], order, after)
    ensures var r := OnDeliver(s, id, Merged(order, after)); Kept(r, r.moves[id]) && Targeted(r.moves[id]) && Backed(r, r.moves[id])
  {
    hide Has, View, Unique, AllUnique, Grows, Backed;
    var m := s.moves[id];
    var to, r := m.targets[m.next], OnDeliver(s, id, Merged(order, after));
    MergeGrows(At(s, to), order, after);
    assert Targeted(m) && Kept(s, m);
    assert to != m.from && SameMap(to, m.from);
    assert Later(r, r.moves[id], to);
    MergedBacks(s, r, m, r.moves[id], to, order);
    assert m.targets[..m.next] + [to] == m.targets[..m.next + 1];
  }

  lemma AllUniqueSame(s: State, r: State)
    requires AllUnique(s) && s.fragments == r.fragments
    ensures AllUnique(r)
  {
  }

  /** A dropped table takes no other move's backing with it. */
  lemma DropBacked(s: State, id: nat, other: nat)
    requires Inv(s) && id in s.moves && other in s.moves && other != id
    requires var m := s.moves[id]; m.next == |m.targets| && !m.departed
    ensures var r := OnFinish(s, id); Backed(r, s.moves[other])
  {
    hide Has, AllUnique, Later;
    var m, o, r := s.moves[id], s.moves[other], OnFinish(s, id);
    assert Kept(s, m) && Targeted(m) && Backed(s, m) && Backed(s, o);
    assert m.merged == m.targets[..m.next] == m.targets;
    if o.merged != [] {
      forall h | h in o.table
        ensures exists q :: Witness(r, o, h, o.table[h].timestamp, q)
      {
        var t := o.table[h].timestamp;
        var q :| Witness(s, o, h, t, q);
        if q != m.from || Has(At(r, q), h, t) {
          assert Has(At(r, q), h, t);
          StillLater(s, id, o, q);
          assert Witness(r, o, h, t, q);
        } else {
          DropLoses(s, m, h, t);
          var q' :| Witness(s, m, h, m.table[h].timestamp, q');
          HasLess(At(s, q'), h, m.table[h].timestamp, t);
          ElsewhereToo(s, id, other, q');
          assert At(r, q') == At(s, q');
          assert Witness(r, o, h, t, q');
        }
      }
    }
  }

  lemma StillLater(s: State, id: nat, o: Move, q: Place)
    requires id in s.moves && Later(s, o, q)
    ensures Later(OnFinish(s, id), o, q)
  {
  }

  /** What stands behind a move that began later is neither the earlier move's own fragment
      nor locked by anything earlier still. */
  lemma ElsewhereToo(s: State, id: nat, other: nat, q': Place)
    requires id in s.moves && other in s.moves && other != id
    requires Later(s, s.moves[other], s.moves[id].from) && Later(s, s.moves[id], q')
    ensures q' != s.moves[other].from && Later(OnFinish(s, id), s.moves[other], q')
  {
    assert s.moves[id].begun > s.moves[other].begun;
  }

  lemma FinishInv(s: State, id: nat)
    requires Inv(s) && id in s.moves && s.moves[id].next == |s.moves[id].targets|
    ensures Inv(OnFinish(s, id)) && Conserves(s, OnFinish(s, id))
  {
    DropConserves(s, id);
    if s.moves[id].departed {
      EndInv(s, id);
    } else {
      hide Has, AllUnique, Backed;
      var m, r := s.moves[id], OnFinish(s, id);
      FinishUnique(s, id);
      forall other | other in r.moves
        ensures Kept(r, r.moves[other]) && Targeted(r.moves[other]) && Backed(r, r.moves[other])
      {
        DropBacked(s, id, other);
        assert Kept(s, s.moves[other]) && At(r, s.moves[other].from) == At(s, s.moves[other].from);
      }
    }
  }

  lemma FinishUnique(s: State, id: nat)
    requires Inv(s) && id in s.moves
    ensures AllUnique(OnFinish(s, id))
  {
    var m := s.moves[id];
    assert Kept(s, m);
    if m.from in s.fragments {
      RemoveAtUnique(s.fragments[m.from], m.index);
    }
  }

  lemma CompactGrows(s: State, e: Event)
    requires e.Compact? && Compacts(s, e.place, e.cleanup, e.now, e.timeout, e.after) && !Loses(s, e)
    ensures Grows(At(s, e.place), e.after)
  {
  }

  lemma StepInv(replicaCount: nat, s: State, e: Event)
    requires Inv(s) && Enabled(replicaCount, s, e) && !Loses(s, e)
    ensures Inv(Step(replicaCount, s, e)) && Conserves(s, Step(replicaCount, s, e))
  {
    hide Inv, Has, View, Unique, Locked;
    match e
    case Begin(id, from, reason) =>
      BeginInv(replicaCount, s, e);
      Same(s, Step(replicaCount, s, e));
      GrowConserves(s, Step(replicaCount, s, e));
    case Deliver(id, d) => DeliverInv(replicaCount, s, e);
    case Finish(id) => FinishInv(s, id);
    case Export(place, index) =>
      ExportInv(s, s.copies + {At(s, place)[index].entries});
      Same(s, Step(replicaCount, s, e));
      GrowConserves(s, Step(replicaCount, s, e));
    case Copy(table, to, order, after) =>
      MergeGrows(At(s, to), order, after);
      ChangeOneInv(s, to, after);
    case Write(place, pair, after) =>
      WriteGrows(s, place, pair, after);
      ChangeOneInv(s, place, after);
    case Compact(place, _, _, _, after) =>
      CompactGrows(s, e);
      ChangeOneInv(s, place, after);
  }

  lemma ExportInv(s: State, copies: set<map<nat, Entry>>)
    requires Inv(s)
    ensures Inv(s.(copies := copies))
  {
    hide Has, AllUnique;
    var r := s.(copies := copies);
    AllUniqueSame(s, r);
    Same(s, r);
    forall id | id in r.moves
      ensures Kept(r, r.moves[id]) && Targeted(r.moves[id]) && Backed(r, r.moves[id])
    {
      GrowBacked(s, r, s.moves[id]);
    }
  }

  // Runs

  ghost predicate Legal(replicaCount: nat, s: State, es: seq<Event>)
    decreases |es|
  {
    es == [] || (Enabled(replicaCount, s, es[0]) && Legal(replicaCount, Step(replicaCount, s, es[0]), es[1..]))
  }

  ghost function After(replicaCount: nat, s: State, es: seq<Event>): State
    requires Legal(replicaCount, s, es)
    decreases |es|
  {
    if es == [] then s else After(replicaCount, Step(replicaCount, s, es[0]), es[1..])
  }

  /** No clean-up in the run takes entries with it. */
  ghost predicate Lossless(replicaCount: nat, s: State, es: seq<Event>)
    requires Legal(replicaCount, s, es)
    decreases |es|
  {
    es == [] || (!Loses(s, es[0]) && Lossless(replicaCount, Step(replicaCount, s, es[0]), es[1..]))
  }

  /** No move is under way. */
  ghost predicate Quiet(s: State) {
    s.moves == map[] && AllUnique(s)
  }

  lemma ConservesTrans(s: State, r: State, u: State)
    requires Conserves(s, r) && Conserves(r, u)
    ensures Conserves(s, u)
  {
    hide Held;
  }

  /** Over every interleaving of moves, replication, writes and compactions that lose nothing,
      whatever fails, the newest version of each key of each map that the live members hold never
      gets older. */
  lemma {:induction false} RunConserves(replicaCount: nat, s: State, es: seq<Event>)
    requires Inv(s) && Legal(replicaCount, s, es) && Lossless(replicaCount, s, es)
    ensures Inv(After(replicaCount, s, es)) && Conserves(s, After(replicaCount, s, es))
    decreases |es|
  {
    hide Inv, Step, Enabled, Conserves, Loses;
    if es != [] {
      StepInv(replicaCount, s, es[0]);
      var r := Step(replicaCount, s, es[0]);
      RunConserves(replicaCount, r, es[1..]);
      ConservesTrans(s, r, After(replicaCount, r, es[1..]));
    } else {
      ConservesSelf(s);
    }
  }

  lemma ConservesSelf(s: State)
    ensures Conserves(s, s)
  {
  }

  lemma QuietInv(s: State)
    requires Quiet(s)
    ensures Inv(s)
  {
  }

  lemma Conservation(replicaCount: nat, s: State, es: seq<Event>, m: Place, h: nat, t: int)
    requires Quiet(s) && Legal(replicaCount, s, es) && Lossless(replicaCount, s, es) && Held(s, m, h, t)
    ensures Held(After(replicaCount, s, es), m, h, t)
  {
    hide Inv, Legal, After, Held, Lossless;
    QuietInv(s);
    RunConserves(replicaCount, s, es);
  }

  lemma OthersGrow(replicaCount: nat, s: State, e: Event)
    requires Enabled(replicaCount, s, e) && !e.Finish? && !Loses(s, e)
    ensures AllGrow(s, Step(replicaCount, s, e))
  {
    hide Has, View, Unique, Locked, Grows;
    var r := Step(replicaCount, s, e);
    match e
    case Begin(id, from, reason) => Same(s, r);
    case Export(place, index) => Same(s, r);
    case Copy(table, to, order, after) =>
      MergeGrows(At(s, to), order, after);
      SetGrows(s, to, after);
    case Write(place, pair, after) =>
      WriteGrows(s, place, pair, after);
      SetGrows(s, place, after);
    case Compact(place, _, _, _, after) =>
      CompactGrows(s, e);
      SetGrows(s, place, after);
    case Deliver(id, d) =>
      var to := s.moves[id].targets[s.moves[id].next];
      if d.Departed? || (d.Failed? && d.order == []) {
        Same(s, r);
      } else {
        MergeGrows(At(s, to), d.order, d.after);
        SetGrows(s, to, d.after);
        Same(s.(fragments := s.fragments[to := d.after]), r);
      }
  }

  /** A compaction, losing or not, conserves exactly unless it takes with the tail a version
      that no other fragment of that partition and map on a live member holds. */
  lemma CompactionConservesIff(s: State, e: Event)
    requires AllUnique(s) && e.Compact? && Compacts(s, e.place, e.cleanup, e.now, e.timeout, e.after)
    ensures var f := At(s, e.place);
            var r := s.(fragments := s.fragments[e.place := e.after]);
            Conserves(s, r) <==> (Loses(s, e) ==> Covered(s, e.place, f[|f| - 1].entries))
  {
    var r := s.(fragments := s.fragments[e.place := e.after]);
    if !Loses(s, e) {
      CompactGrows(s, e);
      SetGrows(s, e.place, e.after);
      GrowConserves(s, r);
    } else {
      hide Grows, AllUnique;
      var f := At(s, e.place);
      var tail := f[|f| - 1].entries;
      forall h | h in tail
        ensures Held(s, e.place, h, tail[h].timestamp) && !Has(e.after, h, tail[h].timestamp)
      {
        TailHas(s, e.place, h);
      }
      if Covered(s, e.place, tail) {
        forall o, h, t | Held(s, o, h, t)
          ensures Held(r, o, h, t)
        {
          LossHeld(s, e, o, h, t);
        }
      }
      if h :| h in tail && !HeldElsewhere(s, e.place, h, tail[h].timestamp) {
        NotHeld(s, e, h, tail[h].timestamp);
      }
    }
  }

  ghost predicate HeldElsewhere(s: State, p: Place, h: nat, t: int) {
    exists q: Place :: q != p && SameMap(q, p) && q.node in s.live && Has(At(s, q), h, t)
  }

  ghost predicate Covered(s: State, p: Place, entries: map<nat, Entry>) {
    forall h :: h in entries ==> HeldElsewhere(s, p, h, entries[h].timestamp)
  }

  lemma TailHas(s: State, p: Place, h: nat)
    requires AllUnique(s) && At(s, p) != [] && p.node in s.live && h in At(s, p)[|At(s, p)| - 1].entries
    ensures var f := At(s, p); h in View(f) && View(f)[h] == f[|f| - 1].entries[h] && Held(s, p, h, f[|f| - 1].entries[h].timestamp)
  {
    var f := At(s, p);
    UniqueView(f, |f| - 1, h);
    assert Has(f, h, f[|f| - 1].entries[h].timestamp);
  }

  lemma LossHeld(s: State, e: Event, o: Place, h: nat, t: int)
    requires AllUnique(s) && e.Compact? && Compacts(s, e.place, e.cleanup, e.now, e.timeout, e.after) && Loses(s, e) && Held(s, o, h, t)
    requires Covered(s, e.place, At(s, e.place)[|At(s, e.place)| - 1].entries)
    ensures Held(s.(fragments := s.fragments[e.place := e.after]), o, h, t)
  {
    hide AllUnique, View, Locked;
    var r := s.(fragments := s.fragments[e.place := e.after]);
    var f := At(s, e.place);
    var p: Place :| SameMap(p, o) && p.node in s.live && Has(At(s, p), h, t);
    if p != e.place {
      assert At(r, p) == At(s, p);
    } else if h in f[|f| - 1].entries {
      TailHas(s, e.place, h);
      var u := f[|f| - 1].entries[h].timestamp;
      var q: Place :| q != e.place && SameMap(q, e.place) && q.node in s.live && Has(At(s, q), h, u);
      HasLess(At(s, q), h, u, t);
      assert At(r, q) == At(s, q);
    } else {
      assert Has(At(r, p), h, t);
    }
  }

  lemma NotHeld(s: State, e: Event, h: nat, t: int)
    requires e.Compact? && Compacts(s, e.place, e.cleanup, e.now, e.timeout, e.after) && Loses(s, e)
    requires var f := At(s, e.place); h in f[|f| - 1].entries && !HeldElsewhere(s, e.place, h, t)
    ensures !Held(s.(fragments := s.fragments[e.place := e.after]), e.place, h, t)
  {
    var r := s.(fragments := s.fragments[e.place := e.after]);
    forall p: Place | SameMap(p, e.place) && p.node in r.live
      ensures !Has(At(r, p), h, t)
    {
      if p != e.place {
        assert At(r, p) == At(s, p);
      }
    }
  }

  /** A fragment loses a version only by the end of a move of the table that had it, to a
      list of targets that is not empty and every one of which merged the whole table. */
  lemma LostOnlyAfterAllMerged(replicaCount: nat, s: State, es: seq<Event>, e: Event, p: Place, h: nat, t: int)
    requires Quiet(s) && Legal(replicaCount, s, es) && Lossless(replicaCount, s, es)
    requires Enabled(replicaCount, After(replicaCount, s, es), e) && !Loses(After(replicaCount, s, es), e)
    requires var r := After(replicaCount, s, es); Has(At(r, p), h, t) && !Has(At(Step(replicaCount, r, e), p), h, t)
    ensures e.Finish?
    ensures var m := After(replicaCount, s, es).moves[e.id];
            m.from == p && h in m.table && m.table[h].timestamp >= t && m.targets != [] && m.merged == m.targets
  {
    hide Legal, After, Backed, Has, AllUnique, Apart, Lossless, Loses;
    QuietInv(s);
    RunConserves(replicaCount, s, es);
    var r := After(replicaCount, s, es);
    if !e.Finish? {
      OthersGrow(replicaCount, r, e);
    } else {
      var m := r.moves[e.id];
      assert Targeted(m) && Kept(r, m) && m.targets[..m.next] == m.targets;
      DropLoses(r, m, h, t);
    }
  }
}
