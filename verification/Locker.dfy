/** Named locks: counters created on demand and deleted when nobody waits, as a step machine
    over any number of sessions. A session is one Lock and the Unlock that ends it; a thread
    that holds several names is several sessions. */
module Locker {

  type Name = string
  type Session = nat

  /** lockCtr: its waiter count and its mutex. */
  datatype Counter = Counter(waiters: int, locked: bool)

  /** Where a session is. `Acquired` has the mutex but is still counted as a waiter;
      `Unlocking`, `Checked` and `Released` are inside Unlock, with the main mutex. */
  datatype Phase =
    | Waiting(name: Name, ctr: nat)
    | Acquired(name: Name, ctr: nat)
    | Holding(name: Name, ctr: nat)
    | Unlocking(name: Name, ctr: nat)
    | Checked(name: Name, ctr: nat)
    | Released(name: Name)

  /** The map of locks, the counters ever made, who has the main mutex, and the sessions. */
  datatype State = State(locks: map<Name, nat>, counters: map<nat, Counter>, mu: set<Session>, phases: map<Session, Phase>)

  const INITIAL := State(map[], map[], {}, map[])

  datatype Event =
    | Enter(session: Session, name: Name, made: nat)
    | Acquire(session: Session)
    | Decrement(session: Session)
    | Begin(session: Session)
    | Check(session: Session)
    | Release(session: Session)
    | End(session: Session)

  /** What can happen next. `made` is the address a counter would get if one is made. Only a
      holder unlocks. */
  predicate Enabled(s: State, e: Event) {
    match e
    case Enter(a, name, made) => a !in s.phases && s.mu == {} && made !in s.counters && (name in s.locks ==> s.locks[name] in s.counters)
    case Acquire(a) => a in s.phases && s.phases[a].Waiting? && s.phases[a].ctr in s.counters && !s.counters[s.phases[a].ctr].locked
    case Decrement(a) => a in s.phases && s.phases[a].Acquired? && s.phases[a].ctr in s.counters
    case Begin(a) => a in s.phases && s.phases[a].Holding? && s.mu == {}
    case Check(a) => a in s.phases && s.phases[a].Unlocking? && s.phases[a].ctr in s.counters
    case Release(a) => a in s.phases && s.phases[a].Checked? && s.phases[a].ctr in s.counters
    case End(a) => a in s.phases && s.phases[a].Released?
  }

  function Step(s: State, e: Event): State
    requires Enabled(s, e)
  {
    match e
    case Enter(a, name, made) =>
      var c := if name in s.locks then s.locks[name] else made;
      var ctr := if name in s.locks then s.counters[c] else Counter(0, false);
      s.(locks := s.locks[name := c], counters := s.counters[c := ctr.(waiters := ctr.waiters + 1)],
         phases := s.phases[a := Waiting(name, c)])
    case Acquire(a) =>
      var p := s.phases[a];
      s.(counters := s.counters[p.ctr := s.counters[p.ctr].(locked := true)], phases := s.phases[a := Acquired(p.name, p.ctr)])
    case Decrement(a) =>
      var p := s.phases[a];
      s.(counters := s.counters[p.ctr := s.counters[p.ctr].(waiters := s.counters[p.ctr].waiters - 1)],
         phases := s.phases[a := Holding(p.name, p.ctr)])
    case Begin(a) =>
      var p := s.phases[a];
      if p.name !in s.locks then s  // ErrNoSuchLock
      else s.(mu := {a}, phases := s.phases[a := Unlocking(p.name, s.locks[p.name])])
    case Check(a) =>
      var p := s.phases[a];
      s.(locks := if s.counters[p.ctr].waiters == 0 then s.locks - {p.name} else s.locks, phases := s.phases[a := Checked(p.name, p.ctr)])
    case Release(a) =>
      var p := s.phases[a];
      s.(counters := s.counters[p.ctr := s.counters[p.ctr].(locked := false)], phases := s.phases[a := Released(p.name)])
    case End(a) => s.(mu := {}, phases := s.phases - {a})
  }

  // The invariant

  predicate Waits(p: Phase) {
    p.Waiting? || p.Acquired?
  }

  predicate HasMutex(p: Phase) {
    p.Acquired? || p.Holding? || p.Unlocking? || p.Checked?
  }

  /** Holds or waits for its name, before the last look at the counter. */
  predicate Engaged(p: Phase) {
    p.Waiting? || p.Acquired? || p.Holding? || p.Unlocking?
  }

  predicate InUnlock(p: Phase) {
    p.Unlocking? || p.Checked? || p.Released?
  }

  ghost function WaitersOf(phases: map<Session, Phase>, c: nat): set<Session> {
    set a | a in phases && Waits(phases[a]) && phases[a].ctr == c
  }

  /** Every counter counts its waiters. */
  ghost predicate Counted(s: State) {
    forall c :: c in s.counters ==> s.counters[c].waiters == |WaitersOf(s.phases, c)|
  }

  /** Sessions of a name share the counter the map has for it. */
  ghost predicate Mapped(s: State) {
    && (forall a :: a in s.phases && Engaged(s.phases[a]) ==> s.phases[a].name in s.locks && s.locks[s.phases[a].name] == s.phases[a].ctr)
    && (forall n :: n in s.locks ==> s.locks[n] in s.counters)
    && (forall n, m :: n in s.locks && m in s.locks && s.locks[n] == s.locks[m] ==> n == m)
  }

  /** A name is in the map only while somebody is engaged with it. */
  ghost predicate Needed(s: State) {
    forall n :: n in s.locks ==> exists a :: a in s.phases && Engaged(s.phases[a]) && s.phases[a].name == n
  }

  /** A counter's mutex is taken exactly when one session has it. */
  ghost predicate Exclusive(s: State) {
    && (forall a :: a in s.phases && HasMutex(s.phases[a]) ==> Taken(s, s.phases[a].ctr))
    && (forall a, b :: a in s.phases && b in s.phases && HasMutex(s.phases[a]) && HasMutex(s.phases[b]) && s.phases[a].ctr == s.phases[b].ctr ==> a == b)
  }

  predicate Taken(s: State, c: nat) {
    c in s.counters && s.counters[c].locked
  }

  ghost predicate Owned(s: State) {
    && (forall c :: c in s.counters && s.counters[c].locked ==> exists a :: a in s.phases && HasMutex(s.phases[a]) && s.phases[a].ctr == c)
  }

  /** One session at a time is inside Unlock. */
  ghost predicate Serial(s: State) {
    && |s.mu| <= 1
    && (forall a :: a in s.phases && InUnlock(s.phases[a]) ==> s.mu == {a})
    && (forall a :: a in s.mu ==> a in s.phases && InUnlock(s.phases[a]))
  }

  /** A session past its last look either left its counter mapped, with a waiter, or took it
      out of the map, with nobody left on it and the name gone. */
  ghost predicate Looked(s: State) {
    forall a :: a in s.phases && s.phases[a].Checked? ==>
      if s.phases[a].name in s.locks then s.locks[s.phases[a].name] == s.phases[a].ctr
      else forall b :: b in s.phases && b != a && !s.phases[b].Released? ==> s.phases[b].ctr != s.phases[a].ctr
  }

  ghost predicate Inv(s: State) {
    Counted(s) && Mapped(s) && Needed(s) && Exclusive(s) && Owned(s) && Serial(s) && Looked(s)
  }

  // Waiter counts

  /** A session changing phase changes the count of at most its own counter. */
  lemma PhaseWaiters(ph: map<Session, Phase>, a: Session, p: Phase, c: nat)
    ensures var before := a in ph && Waits(ph[a]) && ph[a].ctr == c;
            var after := Waits(p) && p.ctr == c;
            |WaitersOf(ph[a := p], c)| == |WaitersOf(ph, c)| + (if after then 1 else 0) - (if before then 1 else 0)
  {
    OthersWait(ph, a, p, c);
    Cardinality(WaitersOf(ph, c), a);
    Cardinality(WaitersOf(ph[a := p], c), a);
  }

  lemma OthersWait(ph: map<Session, Phase>, a: Session, p: Phase, c: nat)
    ensures WaitersOf(ph[a := p], c) - {a} == WaitersOf(ph, c) - {a}
  {
  }

  lemma Cardinality(s: set<Session>, a: Session)
    ensures |s| == |s - {a}| + if a in s then 1 else 0
  {
    if a !in s {
      assert s - {a} == s;
    }
  }

  lemma StepCounted(s: State, e: Event)
    requires Enabled(s, e) && Inv(s)
    ensures Counted(Step(s, e))
  {
    hide Mapped, Needed, Exclusive, Owned, Serial, Looked, WaitersOf;
    var r := Step(s, e);
    var a := e.session;
    forall c | c in r.counters
      ensures r.counters[c].waiters == |WaitersOf(r.phases, c)|
    {
      if e.End? {
        EndWaiters(s.phases, a, c);
      } else if r != s {
        PhaseWaiters(s.phases, a, r.phases[a], c);
      }
      if c !in s.counters {
        NoneYet(s, c);
      }
    }
  }

  lemma EndWaiters(ph: map<Session, Phase>, a: Session, c: nat)
    requires a in ph && ph[a].Released?
    ensures WaitersOf(ph - {a}, c) == WaitersOf(ph, c)
  {
  }

  lemma NoneYet(s: State, c: nat)
    requires Mapped(s) && c !in s.counters
    ensures WaitersOf(s.phases, c) == {}
  {
  }

  lemma StepMapped(s: State, e: Event)
    requires Enabled(s, e) && Inv(s)
    ensures Mapped(Step(s, e))
  {
    hide Counted, Needed, Exclusive, Owned, Serial, Looked;
    if e.Check? {
      CheckMapped(s, e);
    }
  }

  lemma CheckMapped(s: State, e: Event)
    requires Enabled(s, e) && Inv(s) && e.Check?
    ensures Mapped(Step(s, e))
  {
    hide Counted, Needed, Exclusive, Owned, Serial, Looked;
    var p := s.phases[e.session];
    if s.counters[p.ctr].waiters == 0 {
      Unreferenced(s, e);
    }
  }

  /** A counter with no waiter is referred to by nobody but the session that unlocks it. */
  lemma Unreferenced(s: State, e: Event)
    requires Enabled(s, e) && Inv(s) && e.Check? && s.counters[s.phases[e.session].ctr].waiters == 0
    ensures forall b :: b in s.phases && b != e.session && !s.phases[b].Released? ==> s.phases[b].ctr != s.phases[e.session].ctr
    ensures forall b :: b in s.phases && b != e.session && Engaged(s.phases[b]) ==> s.phases[b].name != s.phases[e.session].name
  {
    hide Needed, Looked, Owned;
    var c := s.phases[e.session].ctr;
    assert WaitersOf(s.phases, c) == {};
    forall b | b in s.phases && b != e.session && !s.phases[b].Released?
      ensures s.phases[b].ctr != c
    {
      assert b !in WaitersOf(s.phases, c);
    }
  }

  lemma StepNeeded(s: State, e: Event)
    requires Enabled(s, e) && Inv(s)
    ensures Needed(Step(s, e))
  {
    hide Exclusive, Owned, Serial, Looked;
    var r := Step(s, e);
    forall n | n in r.locks
      ensures exists b :: b in r.phases && Engaged(r.phases[b]) && r.phases[b].name == n
    {
      if n in s.locks {
        var b :| b in s.phases && Engaged(s.phases[b]) && s.phases[b].name == n;
        if e.Check? && b == e.session {
          var c := s.phases[b].ctr;
          assert WaitersOf(s.phases, c) != {};
          var w :| w in WaitersOf(s.phases, c);
          assert s.locks[s.phases[w].name] == c;
          assert w in r.phases && Engaged(r.phases[w]) && r.phases[w].name == n;
        } else {
          assert b in r.phases && Engaged(r.phases[b]) && r.phases[b].name == n;
        }
      } else {
        assert e.session in r.phases && Engaged(r.phases[e.session]) && r.phases[e.session].name == n;
      }
    }
  }

  lemma StepExclusive(s: State, e: Event)
    requires Enabled(s, e) && Inv(s)
    ensures Exclusive(Step(s, e))
  {
    hide Counted, Needed, Serial, Looked, Owned;
  }

  lemma StepOwned(s: State, e: Event)
    requires Enabled(s, e) && Inv(s)
    ensures Owned(Step(s, e))
  {
    hide Counted, Needed, Serial, Looked;
    var r := Step(s, e);
    forall c | c in r.counters && r.counters[c].locked
      ensures exists a :: a in r.phases && HasMutex(r.phases[a]) && r.phases[a].ctr == c
    {
      if e.Acquire? && s.phases[e.session].ctr == c {
        assert HasMutex(r.phases[e.session]);
      } else {
        var a :| a in s.phases && HasMutex(s.phases[a]) && s.phases[a].ctr == c;
        assert a in r.phases && HasMutex(r.phases[a]) && r.phases[a].ctr == c;
      }
    }
  }

  lemma StepSerial(s: State, e: Event)
    requires Enabled(s, e) && Inv(s)
    ensures Serial(Step(s, e))
  {
    hide Counted, Mapped, Needed, Exclusive, Owned, Looked;
  }

  lemma StepLooked(s: State, e: Event)
    requires Enabled(s, e) && Inv(s)
    ensures Looked(Step(s, e))
  {
    hide Counted, Needed, Exclusive, Owned;
    if e.Check? && s.counters[s.phases[e.session].ctr].waiters == 0 {
      Unreferenced(s, e);
    }
  }

  lemma StepInv(s: State, e: Event)
    requires Enabled(s, e) && Inv(s)
    ensures Inv(Step(s, e))
  {
    hide Inv, Step;
    StepCounted(s, e);
    StepMapped(s, e);
    StepNeeded(s, e);
    StepExclusive(s, e);
    StepOwned(s, e);
    StepSerial(s, e);
    StepLooked(s, e);
    Together(Step(s, e));
  }

  lemma Together(s: State)
    requires Counted(s) && Mapped(s) && Needed(s) && Exclusive(s) && Owned(s) && Serial(s) && Looked(s)
    ensures Inv(s)
  {
  }

  // Runs

  predicate Legal(s: State, es: seq<Event>)
    decreases |es|
  {
    es == [] || (Enabled(s, es[0]) && Legal(Step(s, es[0]), es[1..]))
  }

  function After(s: State, es: seq<Event>): State
    requires Legal(s, es)
    decreases |es|
  {
    if es == [] then s else After(Step(s, es[0]), es[1..])
  }

  lemma {:induction false} RunInv(s: State, es: seq<Event>)
    requires Inv(s) && Legal(s, es)
    ensures Inv(After(s, es))
    decreases |es|
  {
    hide Inv, Step, Enabled;
    if es != [] {
      StepInv(s, es[0]);
      RunInv(Step(s, es[0]), es[1..]);
    }
  }

  lemma InitialInv()
    ensures Inv(INITIAL)
  {
  }

  /** At most one session has a name at any moment of any run. */
  lemma MutualExclusion(es: seq<Event>, a: Session, b: Session)
    requires Legal(INITIAL, es)
    requires var s := After(INITIAL, es); a in s.phases && b in s.phases && HasMutex(s.phases[a]) && HasMutex(s.phases[b])
    requires var s := After(INITIAL, es); s.phases[a].name == s.phases[b].name
    ensures a == b
  {
    hide After, Legal, Counted, Needed, Owned;
    InitialInv();
    RunInv(INITIAL, es);
  }

  /** A name is in the map exactly while some session holds or waits for it. */
  lemma NameInMapIff(es: seq<Event>, n: Name)
    requires Legal(INITIAL, es)
    ensures var s := After(INITIAL, es);
            n in s.locks <==> exists a :: a in s.phases && Engaged(s.phases[a]) && s.phases[a].name == n
  {
    hide After, Legal, Counted, Exclusive, Owned, Serial, Looked;
    InitialInv();
    RunInv(INITIAL, es);
  }

  /** A counter leaves the map only when the session unlocking it is the last to refer to it. */
  lemma RemovedWhenUnreferenced(es: seq<Event>, e: Event, n: Name)
    requires Legal(INITIAL, es) && Enabled(After(INITIAL, es), e)
    requires var s := After(INITIAL, es); n in s.locks && n !in Step(s, e).locks
    ensures var s := After(INITIAL, es);
            && e.Check? && s.phases[e.session].name == n && s.phases[e.session].ctr == s.locks[n]
            && forall b :: b in s.phases && b != e.session && !s.phases[b].Released? ==> s.phases[b].ctr != s.locks[n]
  {
    hide After, Legal, Inv;
    InitialInv();
    RunInv(INITIAL, es);
    var s := After(INITIAL, es);
    MappedOf(s);
    Unreferenced(s, e);
  }

  lemma MappedOf(s: State)
    requires Inv(s)
    ensures Mapped(s)
  {
  }

  /** A holder's Unlock finds its own counter: it never returns the no-such-lock error. */
  lemma UnlockFinds(es: seq<Event>, a: Session)
    requires Legal(INITIAL, es)
    requires var s := After(INITIAL, es); a in s.phases && s.phases[a].Holding?
    ensures var s := After(INITIAL, es); s.phases[a].name in s.locks && s.locks[s.phases[a].name] == s.phases[a].ctr
  {
    hide After, Legal, Inv;
    InitialInv();
    RunInv(INITIAL, es);
    MappedOf(After(INITIAL, es));
  }

  /** While there is a session, one of them can take its next step. */
  lemma NoDeadlock(es: seq<Event>)
    requires Legal(INITIAL, es) && After(INITIAL, es).phases != map[]
    ensures exists e: Event :: !e.Enter? && Enabled(After(INITIAL, es), e)
  {
    hide After, Legal, Counted, Needed, Looked;
    InitialInv();
    RunInv(INITIAL, es);
    var s := After(INITIAL, es);
    CanStep(s);
  }

  lemma CanStep(s: State)
    requires Mapped(s) && Exclusive(s) && Owned(s) && Serial(s) && s.phases != map[]
    ensures exists e: Event :: !e.Enter? && Enabled(s, e)
  {
    if a :| a in s.phases && InUnlock(s.phases[a]) {
      var p := s.phases[a];
      var e := if p.Unlocking? then Check(a) else if p.Checked? then Release(a) else End(a);
      assert HasMutex(p) ==> Taken(s, p.ctr);
      assert Enabled(s, e);
    } else if a :| a in s.phases && (s.phases[a].Acquired? || s.phases[a].Holding?) {
      var e := if s.phases[a].Acquired? then Decrement(a) else Begin(a);
      assert HasMutex(s.phases[a]);
      assert s.mu == {};
      assert Enabled(s, e);
    } else {
      var a :| a in s.phases;
      var c := s.phases[a].ctr;
      assert Engaged(s.phases[a]) && c in s.counters;
      assert !s.counters[c].locked;
      assert Enabled(s, Acquire(a));
    }
  }

  /** How far a session has come. */
  function Rank(p: Phase): nat {
    match p
    case Waiting(_, _) => 0
    case Acquired(_, _) => 1
    case Holding(_, _) => 2
    case Unlocking(_, _) => 3
    case Checked(_, _) => 4
    case Released(_) => 5
  }

  /** A step of a session brings it one phase further, under the same name, and changes no other
      session: a session that is let run ends after six steps. */
  lemma StepAdvances(es: seq<Event>, e: Event)
    requires Legal(INITIAL, es) && Enabled(After(INITIAL, es), e)
    ensures var s, a := After(INITIAL, es), e.session;
            var r := Step(s, e);
            && (forall b :: b != a ==> (b in r.phases <==> b in s.phases) && (b in s.phases ==> r.phases[b] == s.phases[b]))
            && (e.Enter? ==> a !in s.phases && a in r.phases && Rank(r.phases[a]) == 0 && r.phases[a].name == e.name)
            && (!e.Enter? ==> a in s.phases && (a in r.phases <==> Rank(s.phases[a]) < 5))
            && (!e.Enter? && a in r.phases ==> Rank(r.phases[a]) == Rank(s.phases[a]) + 1 && r.phases[a].name == s.phases[a].name)
  {
    hide After, Legal, Inv;
    InitialInv();
    RunInv(INITIAL, es);
    MappedOf(After(INITIAL, es));
  }
}
