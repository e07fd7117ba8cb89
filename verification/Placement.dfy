/** The owner lists of a partition, recomputed by the coordinator: recorded owners that are
    still members and still hold data stay, the owners the ring designates come last. */
module Placement {
  import opened Codec
  import opened RingModel
  import opened RingClass

  type Owners = seq<Member>

  /** The probed key counts of one partition's copies. */
  type Counts = map<Member, int>

  const UNANSWERED: int := -1

  function Count(counts: Counts, m: Member): int {
    if m in counts then counts[m] else UNANSWERED
  }

  // Duplicate-free lists

  predicate Has(owners: Owners, id: nat) {
    exists i :: 0 <= i < |owners| && owners[i].id == id
  }

  predicate NoDuplicates(owners: Owners) {
    owners == [] || (!Has(owners[1..], owners[0].id) && NoDuplicates(owners[1..]))
  }

  ghost function Ids(owners: Owners): set<nat> {
    set i | 0 <= i < |owners| :: owners[i].id
  }

  lemma HasIds(owners: Owners, id: nat)
    ensures Has(owners, id) <==> id in Ids(owners)
  {
  }

  lemma HasStep(owners: Owners, id: nat)
    requires owners != []
    ensures Has(owners, id) <==> owners[0].id == id || Has(owners[1..], id)
  {
    forall i | 0 <= i < |owners[1..]|
      ensures owners[1..][i] == owners[i + 1]
    {
    }
    if Has(owners, id) {
      var i :| 0 <= i < |owners| && owners[i].id == id;
      assert i > 0 ==> owners[1..][i - 1].id == id;
    }
  }

  lemma HasConcat(a: Owners, b: Owners, id: nat)
    ensures Has(a + b, id) <==> Has(a, id) || Has(b, id)
  {
    if Has(a + b, id) {
      var i :| 0 <= i < |a + b| && (a + b)[i].id == id;
      assert i >= |a| ==> b[i - |a|].id == id;
    }
    if Has(a, id) {
      var i :| 0 <= i < |a| && a[i].id == id;
      assert (a + b)[i].id == id;
    }
    if Has(b, id) {
      var i :| 0 <= i < |b| && b[i].id == id;
      assert (a + b)[|a| + i].id == id;
    }
  }

  // The three steps of a computation

  predicate IsLive(index: map<Name, Member>, m: Member) {
    m.name in index && index[m.name].id == m.id
  }

  /** The members of `owners` still in the cluster under the same identity, with a copy that
      is not known to be empty, and not among `excluded`: in their order. */
  function Survivors(owners: Owners, index: map<Name, Member>, counts: Counts, excluded: set<nat>): Owners {
    if owners == [] then []
    else
      var rest := Survivors(owners[1..], index, counts, excluded);
      var m := owners[0];
      if IsLive(index, m) && Count(counts, m) != 0 && m.id !in excluded then [m] + rest else rest
  }

  function Live(owners: Owners, index: map<Name, Member>): Owners {
    if owners == [] then []
    else if IsLive(index, owners[0]) then [owners[0]] + Live(owners[1..], index)
    else Live(owners[1..], index)
  }

  function Filled(owners: Owners, counts: Counts): Owners {
    if owners == [] then []
    else if Count(counts, owners[0]) != 0 then [owners[0]] + Filled(owners[1..], counts)
    else Filled(owners[1..], counts)
  }

  /** Without the first entry of that identity. */
  function Drop(owners: Owners, id: nat): Owners {
    if owners == [] then []
    else if owners[0].id == id then owners[1..]
    else [owners[0]] + Drop(owners[1..], id)
  }

  function MoveLast(owners: Owners, m: Member): Owners {
    Drop(owners, m.id) + [m]
  }

  function MoveAllLast(owners: Owners, ms: seq<Member>): Owners
    decreases |ms|
  {
    if ms == [] then owners else MoveAllLast(MoveLast(owners, ms[0]), ms[1..])
  }

  lemma {:induction false} FilledLive(owners: Owners, index: map<Name, Member>, counts: Counts)
    ensures Filled(Live(owners, index), counts) == Survivors(owners, index, counts, {})
  {
    if owners != [] {
      FilledLive(owners[1..], index, counts);
      var rest := Live(owners[1..], index);
      assert ([owners[0]] + rest)[1..] == rest;
    }
  }

  lemma {:induction false} SurvivorsIn(owners: Owners, index: map<Name, Member>, counts: Counts, excluded: set<nat>, m: Member)
    ensures var r := Survivors(owners, index, counts, excluded);
            m in r <==> m in owners && IsLive(index, m) && Count(counts, m) != 0 && m.id !in excluded
  {
    if owners != [] {
      SurvivorsIn(owners[1..], index, counts, excluded, m);
      assert owners == [owners[0]] + owners[1..];
    }
  }

  lemma SurvivorsHas(owners: Owners, index: map<Name, Member>, counts: Counts, excluded: set<nat>, id: nat)
    requires Has(Survivors(owners, index, counts, excluded), id)
    ensures Has(owners, id) && id !in excluded
  {
    var r := Survivors(owners, index, counts, excluded);
    var i :| 0 <= i < |r| && r[i].id == id;
    SurvivorsIn(owners, index, counts, excluded, r[i]);
    var j :| 0 <= j < |owners| && owners[j] == r[i];
  }

  lemma {:induction false} SurvivorsNoDuplicates(owners: Owners, index: map<Name, Member>, counts: Counts, excluded: set<nat>)
    requires NoDuplicates(owners)
    ensures NoDuplicates(Survivors(owners, index, counts, excluded))
  {
    if owners != [] {
      SurvivorsNoDuplicates(owners[1..], index, counts, excluded);
      var rest := Survivors(owners[1..], index, counts, excluded);
      if Has(rest, owners[0].id) {
        SurvivorsHas(owners[1..], index, counts, excluded, owners[0].id);
      }
      assert ([owners[0]] + rest)[1..] == rest;
    }
  }

  /** Dropping an identity excludes it, as no identity occurs twice. */
  lemma {:induction false} DropExcludes(owners: Owners, index: map<Name, Member>, counts: Counts, excluded: set<nat>, id: nat)
    requires NoDuplicates(owners)
    ensures Drop(Survivors(owners, index, counts, excluded), id) == Survivors(owners, index, counts, excluded + {id})
  {
    if owners != [] {
      var m, rest := owners[0], Survivors(owners[1..], index, counts, excluded);
      DropExcludes(owners[1..], index, counts, excluded, id);
      assert ([m] + rest)[1..] == rest;
      if m.id == id {
        if Has(rest, id) {
          SurvivorsHas(owners[1..], index, counts, excluded, id);
        }
        DropAbsent(rest, id);
      }
    }
  }

  lemma {:induction false} DropAbsent(owners: Owners, id: nat)
    requires !Has(owners, id)
    ensures Drop(owners, id) == owners
  {
    if owners != [] {
      HasStep(owners, id);
      DropAbsent(owners[1..], id);
    }
  }

  lemma {:induction false} DropFirstPart(a: Owners, b: Owners, id: nat)
    requires !Has(b, id)
    ensures Drop(a + b, id) == Drop(a, id) + b
  {
    if a == [] {
      assert a + b == b;
      DropAbsent(b, id);
    } else {
      assert (a + b)[1..] == a[1..] + b;
      DropFirstPart(a[1..], b, id);
    }
  }

  /** Moving the designated owners to the end keeps the other survivors in their order. */
  lemma {:induction false} MoveAllLastExact(owners: Owners, index: map<Name, Member>, counts: Counts,
                                            excluded: set<nat>, placed: seq<Member>, ms: seq<Member>)
    requires NoDuplicates(owners) && NoDuplicates(placed + ms)
    ensures MoveAllLast(Survivors(owners, index, counts, excluded) + placed, ms)
         == Survivors(owners, index, counts, excluded + Ids(ms)) + (placed + ms)
    decreases |ms|
  {
    if ms == [] {
      assert excluded + Ids(ms) == excluded && placed + ms == placed;
    } else {
      var m, kept := ms[0], Survivors(owners, index, counts, excluded);
      MiddleOnce(placed, ms);
      DropFirstPart(kept, placed, m.id);
      DropExcludes(owners, index, counts, excluded, m.id);
      var kept' := Survivors(owners, index, counts, excluded + {m.id});
      assert MoveLast(kept + placed, m) == kept' + (placed + [m]);
      assert placed + [m] + ms[1..] == placed + ms;
      MoveAllLastExact(owners, index, counts, excluded + {m.id}, placed + [m], ms[1..]);
      IdsStep(ms);
      assert excluded + {m.id} + Ids(ms[1..]) == excluded + Ids(ms);
    }
  }

  lemma IdsStep(ms: seq<Member>)
    requires ms != []
    ensures Ids(ms) == {ms[0].id} + Ids(ms[1..])
  {
    forall id
      ensures id in Ids(ms) <==> id in {ms[0].id} + Ids(ms[1..])
    {
      if id in Ids(ms) {
        var i :| 0 <= i < |ms| && ms[i].id == id;
        if i > 0 {
          assert ms[1..][i - 1].id == id;
        }
      }
      if id in Ids(ms[1..]) {
        var i :| 0 <= i < |ms[1..]| && ms[1..][i].id == id;
        assert ms[i + 1].id == id;
      }
    }
  }

  lemma {:induction false} MiddleOnce(placed: seq<Member>, ms: seq<Member>)
    requires ms != [] && NoDuplicates(placed + ms)
    ensures !Has(placed, ms[0].id)
  {
    if placed != [] {
      assert (placed + ms)[1..] == placed[1..] + ms;
      MiddleOnce(placed[1..], ms);
      HasConcat(placed[1..], ms, placed[0].id);
      HasStep(ms, placed[0].id);
      HasStep(placed, ms[0].id);
    }
  }

  // Routes

  datatype Route = Route(owners: Owners, backups: Owners)

  /** What one computation is given: the live members, the answers to the probes, whether
      more than one replica is configured, and the ring's owner followed by its successors. */
  datatype Round = Round(index: map<Name, Member>, primary: Counts, backup: Counts, replicas: bool, closest: seq<Member>)

  /** The ring's answer has no identity twice, and no successor without replicas. */
  predicate RoundOk(r: Round) {
    r.closest != [] && NoDuplicates(r.closest) && (!r.replicas ==> |r.closest| == 1)
  }

  function PlacePrimary(owners: Owners, r: Round): Owners
    requires r.closest != []
  {
    MoveLast(Filled(Live(owners, r.index), r.primary), r.closest[0])
  }

  function PlaceBackups(owners: Owners, r: Round): Owners
    requires r.closest != []
  {
    if r.replicas then MoveAllLast(Filled(Live(owners, r.index), r.backup), r.closest[1..]) else []
  }

  function Compute(route: Route, r: Round): Route
    requires r.closest != []
  {
    Route(PlacePrimary(route.owners, r), PlaceBackups(route.backups, r))
  }

  /** The owner list is the surviving owners in their order and then the ring's primary. */
  lemma PrimaryExact(owners: Owners, r: Round)
    requires r.closest != [] && NoDuplicates(owners)
    ensures PlacePrimary(owners, r) == Survivors(owners, r.index, r.primary, {r.closest[0].id}) + [r.closest[0]]
  {
    FilledLive(owners, r.index, r.primary);
    DropExcludes(owners, r.index, r.primary, {}, r.closest[0].id);
    assert {} + {r.closest[0].id} == {r.closest[0].id};
  }

  /** The backup list is the surviving backups in their order and then the ring's successors. */
  lemma BackupsExact(owners: Owners, r: Round)
    requires r.replicas && r.closest != [] && NoDuplicates(owners) && NoDuplicates(r.closest)
    ensures PlaceBackups(owners, r) == Survivors(owners, r.index, r.backup, Ids(r.closest[1..])) + r.closest[1..]
  {
    var ms := r.closest[1..];
    FilledLive(owners, r.index, r.backup);
    var kept := Survivors(owners, r.index, r.backup, {});
    assert kept + [] == kept && [] + ms == ms;
    MoveAllLastExact(owners, r.index, r.backup, {}, [], ms);
    assert {} + Ids(ms) == Ids(ms);
  }

  lemma {:induction false} ConcatNoDuplicates(a: Owners, b: Owners)
    requires NoDuplicates(a) && NoDuplicates(b) && Ids(a) !! Ids(b)
    ensures NoDuplicates(a + b)
  {
    if a == [] {
      assert a + b == b;
    } else {
      IdsStep(a);
      ConcatNoDuplicates(a[1..], b);
      assert (a + b)[1..] == a[1..] + b;
      HasIds(b, a[0].id);
      HasConcat(a[1..], b, a[0].id);
    }
  }

  /** The shape every computed route has. */
  ghost predicate Shaped(route: Route, closest: seq<Member>) {
    && closest != []
    && NoDuplicates(route.owners) && NoDuplicates(route.backups)
    && EndsIn(route.owners, [closest[0]])
    && EndsIn(route.backups, closest[1..])
  }

  predicate EndsIn(owners: Owners, tail: seq<Member>) {
    |tail| <= |owners| && owners[|owners| - |tail|..] == tail
  }

  lemma SurvivorsThen(owners: Owners, index: map<Name, Member>, counts: Counts, tail: seq<Member>)
    requires NoDuplicates(owners) && NoDuplicates(tail)
    ensures var r := Survivors(owners, index, counts, Ids(tail)) + tail; NoDuplicates(r) && EndsIn(r, tail)
  {
    var kept := Survivors(owners, index, counts, Ids(tail));
    SurvivorsNoDuplicates(owners, index, counts, Ids(tail));
    forall id | id in Ids(kept)
      ensures id !in Ids(tail)
    {
      HasIds(kept, id);
      SurvivorsHas(owners, index, counts, Ids(tail), id);
    }
    ConcatNoDuplicates(kept, tail);
  }

  lemma ComputeShape(route: Route, r: Round)
    requires RoundOk(r) && NoDuplicates(route.owners) && NoDuplicates(route.backups)
    ensures Shaped(Compute(route, r), r.closest)
  {
    hide NoDuplicates, EndsIn, Survivors, Ids;
    PrimaryExact(route.owners, r);
    Singleton(r.closest[0]);
    TailNoDuplicates(r.closest);
    SurvivorsThen(route.owners, r.index, r.primary, [r.closest[0]]);
    if r.replicas {
      BackupsExact(route.backups, r);
      SurvivorsThen(route.backups, r.index, r.backup, r.closest[1..]);
    } else {
      NoBackups(r.closest);
    }
  }

  lemma NoBackups(closest: seq<Member>)
    requires |closest| == 1
    ensures NoDuplicates([]) && EndsIn([], closest[1..])
  {
  }

  lemma Singleton(m: Member)
    ensures NoDuplicates([m]) && Ids([m]) == {m.id}
  {
    IdsStep([m]);
    assert [m][1..] == [];
  }

  lemma TailNoDuplicates(owners: Owners)
    requires owners != [] && NoDuplicates(owners)
    ensures NoDuplicates(owners[1..]) && !Has(owners[1..], owners[0].id)
  {
  }

  /** A recorded owner that is live and whose copy holds data, or did not answer, stays. */
  lemma OwnersKept(owners: Owners, r: Round, m: Member)
    requires RoundOk(r) && NoDuplicates(owners)
    requires m in owners && IsLive(r.index, m)
    ensures Count(r.primary, m) != 0 ==> Has(PlacePrimary(owners, r), m.id)
    ensures r.replicas && Count(r.backup, m) != 0 ==> Has(PlaceBackups(owners, r), m.id)
  {
    PrimaryExact(owners, r);
    SurvivorsIn(owners, r.index, r.primary, {r.closest[0].id}, m);
    var kept := Survivors(owners, r.index, r.primary, {r.closest[0].id});
    HasConcat(kept, [r.closest[0]], m.id);
    assert [r.closest[0]][0] == r.closest[0];
    if r.replicas {
      BackupsExact(owners, r);
      SurvivorsIn(owners, r.index, r.backup, Ids(r.closest[1..]), m);
      HasConcat(Survivors(owners, r.index, r.backup, Ids(r.closest[1..])), r.closest[1..], m.id);
      HasIds(r.closest[1..], m.id);
    }
  }

  /** The member is in the cluster under the identity recorded, and its copy is not known to be
      empty: it was not asked, did not answer, or answered with a count other than zero. */
  predicate Stays(index: map<Name, Member>, counts: Counts, m: Member) {
    && m.name in index && index[m.name].id == m.id
    && !(m in counts && counts[m] == 0)
  }

  lemma {:induction false} HasMember(owners: Owners, m: Member)
    requires NoDuplicates(owners) && m in owners
    ensures forall i :: 0 <= i < |owners| && owners[i].id == m.id ==> owners[i] == m
  {
    if owners[0] != m {
      assert owners == [owners[0]] + owners[1..];
      HasMember(owners[1..], m);
      forall i | 0 <= i < |owners| && owners[i].id == m.id
        ensures owners[i] == m
      {
        if i > 0 {
          assert owners[1..][i - 1] == owners[i];
        }
      }
    } else {
      forall i | 0 < i < |owners|
        ensures owners[i].id != m.id
      {
        assert owners[1..][i - 1] == owners[i];
      }
    }
  }

  /** A recorded owner is in the new list exactly when it stays or is designated. */
  lemma OwnersKeptIff(owners: Owners, r: Round, m: Member)
    requires RoundOk(r) && NoDuplicates(owners) && m in owners
    ensures Has(PlacePrimary(owners, r), m.id) <==> Stays(r.index, r.primary, m) || m.id == r.closest[0].id
    ensures r.replicas ==> (Has(PlaceBackups(owners, r), m.id) <==> Stays(r.index, r.backup, m) || Has(r.closest[1..], m.id))
  {
    PrimaryExact(owners, r);
    HasMember(owners, m);
    KeptIff(owners, r.index, r.primary, [r.closest[0]], m);
    if r.replicas {
      BackupsExact(owners, r);
      KeptIff(owners, r.index, r.backup, r.closest[1..], m);
    }
    Alone(r.closest[0], m.id);
  }

  lemma Alone(c: Member, id: nat)
    ensures Ids([c]) == {c.id} && (Has([c], id) <==> c.id == id)
  {
    HasIds([c], id);
    assert [c][0] == c;
  }

  lemma KeptIff(owners: Owners, index: map<Name, Member>, counts: Counts, tail: seq<Member>, m: Member)
    requires m in owners && forall i :: 0 <= i < |owners| && owners[i].id == m.id ==> owners[i] == m
    ensures Has(Survivors(owners, index, counts, Ids(tail)) + tail, m.id) <==> Stays(index, counts, m) || Has(tail, m.id)
  {
    var kept := Survivors(owners, index, counts, Ids(tail));
    HasConcat(kept, tail, m.id);
    HasIds(tail, m.id);
    SurvivorsIn(owners, index, counts, Ids(tail), m);
    if Has(kept, m.id) {
      var i :| 0 <= i < |kept| && kept[i].id == m.id;
      SurvivorsIn(owners, index, counts, Ids(tail), kept[i]);
      assert kept[i] in kept;
      var j :| 0 <= j < |owners| && owners[j] == kept[i];
    }
    if m in kept {
      var i :| 0 <= i < |kept| && kept[i] == m;
    }
  }

  // Left-over reports

  function EnsureOwnership(owners: Owners, m: Member): Owners {
    if Has(owners, m.id) then owners else [m] + owners
  }

  function EnsureAll(owners: Owners, ms: seq<Member>): Owners
    decreases |ms|
  {
    if ms == [] then owners else EnsureAll(EnsureOwnership(owners, ms[0]), ms[1..])
  }

  lemma {:induction false} EnsureAllKeeps(owners: Owners, ms: seq<Member>, tail: seq<Member>)
    requires NoDuplicates(owners) && EndsIn(owners, tail)
    ensures NoDuplicates(EnsureAll(owners, ms)) && EndsIn(EnsureAll(owners, ms), tail)
    ensures EndsIn(EnsureAll(owners, ms), owners)
    ensures forall i :: 0 <= i < |ms| ==> Has(EnsureAll(owners, ms), ms[i].id)
    decreases |ms|
  {
    hide Has, NoDuplicates, EndsIn, EnsureOwnership;
    EndsInSelf(owners);
    if ms != [] {
      var next := EnsureOwnership(owners, ms[0]);
      EndsInSelf(next);
      EnsureOneKeeps(owners, ms[0], tail);
      EnsureAllKeeps(next, ms[1..], owners);
      var r := EnsureAll(next, ms[1..]);
      EndsInTrans(r, owners, tail);
      EnsureAllKeeps(next, ms[1..], next);
      EndsInHas(r, next, ms[0].id);
      forall i | 0 <= i < |ms|
        ensures Has(r, ms[i].id)
      {
        if i > 0 {
          assert ms[1..][i - 1] == ms[i];
        }
      }
    }
  }

  lemma EnsureOneKeeps(owners: Owners, m: Member, tail: seq<Member>)
    requires NoDuplicates(owners) && EndsIn(owners, tail)
    ensures var r := EnsureOwnership(owners, m); NoDuplicates(r) && EndsIn(r, tail) && EndsIn(r, owners) && Has(r, m.id)
  {
    if !Has(owners, m.id) {
      var r := [m] + owners;
      assert r[1..] == owners;
      assert r[0].id == m.id;
    }
  }

  lemma EndsInSelf(a: Owners)
    ensures EndsIn(a, a)
  {
    assert a[0..] == a;
  }

  lemma EndsInTrans(a: Owners, b: Owners, c: Owners)
    requires EndsIn(a, b) && EndsIn(b, c)
    ensures EndsIn(a, c)
  {
    assert a[|a| - |c|..] == a[|a| - |b|..][|b| - |c|..];
  }

  lemma EndsInHas(a: Owners, b: Owners, id: nat)
    requires EndsIn(a, b) && Has(b, id)
    ensures Has(a, id)
  {
    var i :| 0 <= i < |b| && b[i].id == id;
    assert a[|a| - |b| + i] == b[i];
  }

  // Repeated recomputation

  datatype Event = Recompute(round: Round) | LeftOver(primaries: seq<Member>, backups: seq<Member>)

  ghost predicate Allowed(es: seq<Event>) {
    forall i :: 0 <= i < |es| && es[i].Recompute? ==> RoundOk(es[i].round)
  }

  function After(route: Route, e: Event): Route
    requires e.Recompute? ==> e.round.closest != []
  {
    match e
    case Recompute(r) => Compute(route, r)
    case LeftOver(ps, bs) => Route(EnsureAll(route.owners, ps), EnsureAll(route.backups, bs))
  }

  ghost function AfterAll(route: Route, es: seq<Event>): Route
    requires Allowed(es)
    decreases |es|
  {
    if es == [] then route else After(AfterAll(route, es[..|es| - 1]), es[|es| - 1])
  }

  /** The last computation's designated owners. */
  ghost function Designated(es: seq<Event>): seq<Member>
    decreases |es|
  {
    if es == [] then []
    else if es[|es| - 1].Recompute? then es[|es| - 1].round.closest
    else Designated(es[..|es| - 1])
  }

  /** Over any recomputations and left-over reports, routes stay duplicate-free and keep
      ending in the owners the last computation designated. */
  lemma {:induction false} RunShape(route: Route, es: seq<Event>)
    requires Allowed(es) && NoDuplicates(route.owners) && NoDuplicates(route.backups)
    ensures var r := AfterAll(route, es); NoDuplicates(r.owners) && NoDuplicates(r.backups)
    ensures Designated(es) != [] ==> Shaped(AfterAll(route, es), Designated(es))
    decreases |es|
  {
    hide NoDuplicates, EndsIn, After, Shaped;
    if es != [] {
      var most, e := es[..|es| - 1], es[|es| - 1];
      RunShape(route, most);
      var before := AfterAll(route, most);
      match e
      case Recompute(r) => RecomputeShape(before, e);
      case LeftOver(ps, bs) => LeftOverShape(before, e, Designated(most));
    }
  }

  lemma RecomputeShape(route: Route, e: Event)
    requires e.Recompute? && RoundOk(e.round)
    requires NoDuplicates(route.owners) && NoDuplicates(route.backups)
    ensures var r := After(route, e); NoDuplicates(r.owners) && NoDuplicates(r.backups) && Shaped(r, e.round.closest)
  {
    hide NoDuplicates, EndsIn, Compute;
    ComputeShape(route, e.round);
  }

  lemma NothingEnds(route: Route)
    ensures EndsIn(route.owners, []) && EndsIn(route.backups, [])
  {
  }

  lemma LeftOverShape(route: Route, e: Event, closest: seq<Member>)
    requires e.LeftOver? && NoDuplicates(route.owners) && NoDuplicates(route.backups)
    ensures var r := After(route, e); NoDuplicates(r.owners) && NoDuplicates(r.backups)
    ensures Shaped(route, closest) ==> Shaped(After(route, e), closest)
  {
    hide NoDuplicates, EnsureAll, EndsIn, Has;
    NothingEnds(route);
    EnsureAllKeeps(route.owners, e.primaries, if Shaped(route, closest) then [closest[0]] else []);
    EnsureAllKeeps(route.backups, e.backups, if Shaped(route, closest) then closest[1..] else []);
  }

  /** Members with different identities: a ring successor list has none twice, so neither the
      primary nor any successor is repeated in the tail of the backups. */
  lemma {:induction false} ClosestNoDuplicates(members: map<Name, Member>, r: seq<Member>)
    requires forall n, m :: n in members && m in members && members[n].id == members[m].id ==> n == m
    requires forall i :: 0 <= i < |r| ==> IsCurrent(members, r[i])
    requires forall i, j :: 0 <= i < j < |r| ==> r[i].name != r[j].name
    ensures NoDuplicates(r)
  {
    if r != [] {
      var rest := r[1..];
      assert forall i :: 0 <= i < |rest| ==> rest[i] == r[i + 1];
      ClosestNoDuplicates(members, rest);
      forall i | 0 <= i < |rest|
        ensures rest[i].id != r[0].id
      {
        assert IsCurrent(members, r[i + 1]) && r[0].name != r[i + 1].name;
      }
    }
  }

  // The loops

  method LiveOwners(owners: Owners, index: map<Name, Member>) returns (live: Owners)
    ensures live == Live(owners, index)
  {
    live := [];
    var i := 0;
    while i < |owners|
      invariant i <= |owners|
      invariant live + Live(owners[i..], index) == Live(owners, index)
    {
      var owner := owners[i];
      assert owners[i..][1..] == owners[i + 1..];
      if owner.name in index && owner.id == index[owner.name].id {
        live := live + [owner];
      }
      i := i + 1;
    }
  }

  method KeepFilled(owners: Owners, counts: Counts) returns (kept: Owners)
    ensures kept == Filled(owners, counts)
  {
    kept := [];
    var i := 0;
    while i < |owners|
      invariant i <= |owners|
      invariant kept + Filled(owners[i..], counts) == Filled(owners, counts)
    {
      assert owners[i..][1..] == owners[i + 1..];
      if Count(counts, owners[i]) != 0 {
        kept := kept + [owners[i]];
      }
      i := i + 1;
    }
  }

  /** Removes the entry of that identity, if any, and appends it. */
  method AppendOwner(owners: Owners, m: Member) returns (r: Owners)
    ensures r == MoveLast(owners, m)
  {
    var i := 0;
    while i < |owners|
      invariant i <= |owners|
      invariant Drop(owners, m.id) == owners[..i] + Drop(owners[i..], m.id)
    {
      assert owners[i..][1..] == owners[i + 1..];
      if owners[i].id == m.id {
        return owners[..i] + owners[i + 1..] + [m];
      }
      i := i + 1;
    }
    r := owners + [m];
  }

  method PlacePrimaryOwner(owners: Owners, counts: Counts, newOwner: Member) returns (r: Owners)
    ensures r == MoveLast(Filled(owners, counts), newOwner)
  {
    var kept := KeepFilled(owners, counts);
    r := AppendOwner(kept, newOwner);
  }

  method PlaceBackupOwners(owners: Owners, counts: Counts, replicas: seq<Member>) returns (r: Owners)
    requires replicas != []
    ensures r == MoveAllLast(Filled(owners, counts), replicas[1..])
  {
    var newOwners := replicas[1..];
    r := KeepFilled(owners, counts);
    var i := 0;
    while i < |newOwners|
      invariant i <= |newOwners|
      invariant MoveAllLast(r, newOwners[i..]) == MoveAllLast(Filled(owners, counts), newOwners)
    {
      assert newOwners[i..][1..] == newOwners[i + 1..];
      r := AppendOwner(r, newOwners[i]);
      i := i + 1;
    }
  }

  /** getReplicaOwners: as many of the owner and its successors as there are members, up to
      the replica count. None is the error. */
  method GetReplicaOwners(c: Consistent, partID: nat, replicaCount: nat) returns (r: Option<seq<Member>>, ok: bool)
    requires forall n :: n in c.members ==> c.members[n].name == n
    ensures ok <==> replicaCount == 0 || c.members == map[] || partID in c.partitions
    ensures ok ==> (r.Some? <==> replicaCount > 0 && c.members != map[])
    ensures r.Some? ==> partID in c.partitions
    ensures r.Some? && NamesDistinct(c.config, c.members.Keys) && IsCurrent(c.members, c.partitions[partID]) ==>
              && Closest(c.config, c.members, c.partitions[partID], r.value)
              && |r.value| == if replicaCount <= |c.members| then replicaCount else |c.members|
  {
    hide Closest, NamesDistinct;
    var i := replicaCount;
    while i > 0
      invariant i <= replicaCount
      invariant i < replicaCount ==> i + 1 > |c.members|
    {
      r, ok := c.GetClosestN(partID, i);
      if !ok {
        return None, false;
      }
      if r.Some? {
        return r, true;
      }
      i := i - 1;
    }
    r, ok := None, true;
  }

  method EnsureOwner(owners: Owners, m: Member) returns (r: Owners)
    ensures r == EnsureOwnership(owners, m)
  {
    var i := 0;
    while i < |owners|
      invariant i <= |owners|
      invariant forall j :: 0 <= j < i ==> owners[j].id != m.id
    {
      if owners[i].id == m.id {
        return owners;
      }
      i := i + 1;
    }
    r := [m] + owners;
  }
}
