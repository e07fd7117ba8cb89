/** Routing-table versions: numbered pushes from a coordinator, installed by members. */
module Routing {
  import opened Codec
  import opened Placement

  type Payload = seq<Byte>
  type RouteTable = map<nat, Route>

  /** What is outside the table: the wire format and the hash, the configuration, and the
      membership as this node sees it. */
  datatype Env = Env(unmarshal: Payload -> Option<RouteTable>, sum64: Payload -> nat,
                     partitionCount: nat, members: set<nat>, coordinator: nat)

  datatype Version = Version(signature: nat, generation: nat, coordinator: nat, sequence: nat)

  /** `installs` counts the stores of a version: it tells one stored version from another. */
  datatype Node = Node(version: Option<Version>, installs: nat, owners: RouteTable, bootstrapped: bool)

  function Signature(version: Option<Version>): nat {
    match version
    case None => 0
    case Some(v) => v.signature
  }

  function Generation(version: Option<Version>): nat {
    match version
    case None => 0
    case Some(v) => v.generation
  }

  /** setVersion. */
  function NextVersion(current: Option<Version>, signature: nat, coordinator: nat, sequence: nat): Version {
    match current
    case None => Version(signature, 1, coordinator, sequence)
    case Some(v) =>
      var renumbered := sequence != 0 && (v.coordinator != coordinator || v.sequence != sequence);
      if v.signature != signature || renumbered then Version(signature, v.generation + 1, coordinator, sequence)
      else if sequence == 0 then Version(signature, v.generation, v.coordinator, v.sequence)
      else Version(signature, v.generation, coordinator, sequence)
  }

  datatype Applied = Installed | Kept | Refused

  /** verifyRoutingTable. */
  predicate Verified(env: Env, id: nat, table: RouteTable) {
    id in env.members && id == env.coordinator && |table| == env.partitionCount
  }

  /** applyRoutingTablePayload; `expected` is the number of installs when a pull was issued. */
  function Apply(env: Env, n: Node, payload: Payload, id: nat, sequence: nat, onlyBootstrap: bool, expected: Option<nat>): (Node, Applied) {
    if onlyBootstrap && n.bootstrapped then (n, Kept)
    else if expected.Some? && expected.value != n.installs then (n, Kept)
    else match env.unmarshal(payload)
      case None => (n, Refused)
      case Some(table) =>
        if !Verified(env, id, table) then (n, Refused)
        else if sequence != 0 && n.version.Some? && n.version.value.coordinator == id && sequence < n.version.value.sequence then (n, Kept)
        else (Node(Some(NextVersion(n.version, env.sum64(payload), id, sequence)), n.installs + 1, n.owners + table, true), Installed)
  }

  /** A payload is kept out when it may only bootstrap a bootstrapped node, when something was
      installed since a pull was issued, or when it is older than what its sender pushed. */
  predicate Outdated(n: Node, id: nat, sequence: nat, onlyBootstrap: bool, expected: Option<nat>) {
    || (onlyBootstrap && n.bootstrapped)
    || (expected.Some? && expected.value != n.installs)
    || (sequence != 0 && n.version.Some? && n.version.value.coordinator == id && sequence < n.version.value.sequence)
  }

  /** It is acceptable when it decodes, to a table of as many partitions as configured, and its
      sender is a member and the coordinator. */
  predicate Acceptable(env: Env, payload: Payload, id: nat) {
    && env.unmarshal(payload).Some? && |env.unmarshal(payload).value| == env.partitionCount
    && id in env.members && id == env.coordinator
  }

  /** Exactly the acceptable payloads that are not outdated are installed; nothing else changes
      the node. */
  lemma InstalledIff(env: Env, n: Node, payload: Payload, id: nat, sequence: nat, onlyBootstrap: bool, expected: Option<nat>)
    ensures var r := Apply(env, n, payload, id, sequence, onlyBootstrap, expected);
            && (r.1.Installed? <==> Acceptable(env, payload, id) && !Outdated(n, id, sequence, onlyBootstrap, expected))
            && (r.1.Kept? ==> Outdated(n, id, sequence, onlyBootstrap, expected))
            && (r.1.Refused? ==> !Acceptable(env, payload, id))
            && (!r.1.Installed? ==> r.0 == n)
  {
  }

  /** An install stores the table and its signature. The generation advances exactly when the
      signature is new, or a numbered push comes from another sender or under another number;
      an unnumbered payload of the installed signature keeps sender and number. */
  lemma InstallIs(env: Env, n: Node, payload: Payload, id: nat, sequence: nat, onlyBootstrap: bool, expected: Option<nat>)
    requires Apply(env, n, payload, id, sequence, onlyBootstrap, expected).1.Installed?
    ensures var r := Apply(env, n, payload, id, sequence, onlyBootstrap, expected).0;
            && r.version.Some? && r.version.value.signature == env.sum64(payload)
            && r.installs == n.installs + 1 && r.bootstrapped
            && (forall p :: p in env.unmarshal(payload).value ==> p in r.owners && r.owners[p] == env.unmarshal(payload).value[p])
            && (forall p :: p !in env.unmarshal(payload).value ==> (p in r.owners <==> p in n.owners) && (p in n.owners ==> r.owners[p] == n.owners[p]))
    ensures var v := Apply(env, n, payload, id, sequence, onlyBootstrap, expected).0.version.value;
            var same := n.version.Some? && n.version.value.signature == env.sum64(payload);
            var identity := if same && sequence == 0 then (n.version.value.coordinator, n.version.value.sequence) else (id, sequence);
            && (v.coordinator, v.sequence) == identity
            && v.generation == Generation(n.version) +
                 if same && (v.coordinator, v.sequence) == (n.version.value.coordinator, n.version.value.sequence) then 0 else 1
  {
  }

  // Delivery

  datatype Push = Push(payload: Payload, sequence: nat)

  function Deliver(env: Env, n: Node, p: Push): Node {
    Apply(env, n, p.payload, env.coordinator, p.sequence, false, None).0
  }

  function DeliverAll(env: Env, n: Node, ps: seq<Push>): Node
    decreases |ps|
  {
    if ps == [] then n else DeliverAll(env, Deliver(env, n, ps[0]), ps[1..])
  }

  predicate InRange(env: Env, table: RouteTable) {
    forall p :: p in table ==> 0 <= p < env.partitionCount
  }

  /** A push of the coordinator: numbered, and a table for the configured partitions. */
  predicate Sent(env: Env, p: Push) {
    && p.sequence != 0
    && env.coordinator in env.members
    && env.unmarshal(p.payload).Some?
    && |env.unmarshal(p.payload).value| == env.partitionCount
    && InRange(env, env.unmarshal(p.payload).value)
  }

  ghost predicate AllSent(env: Env, ps: seq<Push>) {
    forall i :: 0 <= i < |ps| ==> Sent(env, ps[i])
  }

  /** Equal numbers carry equal tables. */
  ghost predicate Numbered(ps: seq<Push>) {
    forall i, j :: 0 <= i < |ps| && 0 <= j < |ps| && ps[i].sequence == ps[j].sequence ==> ps[i].payload == ps[j].payload
  }

  /** Push `p` is the installed one. */
  ghost predicate Holds(env: Env, n: Node, p: Push) {
    && Sent(env, p)
    && n.version == Some(Version(env.sum64(p.payload), Generation(n.version), env.coordinator, p.sequence))
    && n.owners == env.unmarshal(p.payload).value
    && n.bootstrapped
  }

  /** The pushes that were numbered above everything before them. */
  function NewMaxima(floor: nat, ps: seq<Push>): nat
    decreases |ps|
  {
    if ps == [] then 0
    else if ps[0].sequence > floor then 1 + NewMaxima(ps[0].sequence, ps[1..])
    else NewMaxima(floor, ps[1..])
  }

  lemma FullTable(env: Env, owners: RouteTable, table: RouteTable)
    requires InRange(env, owners) && InRange(env, table) && |table| == env.partitionCount
    ensures owners + table == table
  {
    UpToIs(env.partitionCount);
    var ids := UpTo(env.partitionCount);
    assert table.Keys <= ids;
    if table.Keys != ids {
      Smaller(table.Keys, ids);
    }
  }

  ghost function UpTo(n: nat): set<nat> {
    if n == 0 then {} else UpTo(n - 1) + {n - 1}
  }

  lemma {:induction false} UpToIs(n: nat)
    ensures |UpTo(n)| == n && forall p :: p in UpTo(n) <==> 0 <= p < n
  {
    if n > 0 {
      UpToIs(n - 1);
    }
  }

  lemma {:induction false} Smaller(a: set<nat>, b: set<nat>)
    requires a < b
    ensures |a| < |b|
  {
    if a != {} {
      var x :| x in a;
      Smaller(a - {x}, b - {x});
    }
  }

  lemma DeliverOne(env: Env, n: Node, q: Push, p: Push)
    requires Holds(env, n, q) && Sent(env, p) && (p.sequence == q.sequence ==> p.payload == q.payload)
    ensures var r := Deliver(env, n, p);
            && Holds(env, r, if p.sequence > q.sequence then p else q)
            && Generation(r.version) == Generation(n.version) + if p.sequence > q.sequence then 1 else 0
  {
    FullTable(env, n.owners, env.unmarshal(p.payload).value);
  }

  lemma DeliverFirst(env: Env, n: Node, p: Push)
    requires Sent(env, p) && InRange(env, n.owners)
    requires n.version.Some? ==> n.version.value.coordinator != env.coordinator
    ensures var r := Deliver(env, n, p); Holds(env, r, p) && Generation(r.version) == Generation(n.version) + 1
  {
    FullTable(env, n.owners, env.unmarshal(p.payload).value);
  }

  /** `p` is the highest-numbered of `ps`. */
  ghost predicate Highest(ps: seq<Push>, p: Push) {
    p in ps && forall i :: 0 <= i < |ps| ==> ps[i].sequence <= p.sequence
  }

  lemma {:induction false} DeliverRest(env: Env, n: Node, q: Push, ps: seq<Push>) returns (best: Push)
    requires Holds(env, n, q) && AllSent(env, ps) && Numbered([q] + ps)
    ensures Highest([q] + ps, best) && Holds(env, DeliverAll(env, n, ps), best)
    ensures Generation(DeliverAll(env, n, ps).version) == Generation(n.version) + NewMaxima(q.sequence, ps)
    decreases |ps|
  {
    if ps == [] {
      best := q;
      assert ([q] + ps)[0] == q;
    } else {
      hide Holds, Deliver, Sent;
      assert ([q] + ps)[0] == q && ([q] + ps)[1] == ps[0];
      DeliverOne(env, n, q, ps[0]);
      var next := if ps[0].sequence > q.sequence then ps[0] else q;
      forall i | 0 <= i < |[next] + ps[1..]|
        ensures ([next] + ps[1..])[i] in [q] + ps
      {
        if i > 0 {
          assert ([next] + ps[1..])[i] == ([q] + ps)[i + 1];
        }
      }
      NumberedPart([q] + ps, [next] + ps[1..]);
      best := DeliverRest(env, Deliver(env, n, ps[0]), next, ps[1..]);
      forall i | 0 <= i < |[q] + ps|
        ensures ([q] + ps)[i].sequence <= best.sequence
      {
        assert ([next] + ps[1..])[0].sequence <= best.sequence;
        if i > 1 {
          assert ([q] + ps)[i] == ([next] + ps[1..])[i - 1];
        }
      }
    }
  }

  lemma NumberedPart(ps: seq<Push>, qs: seq<Push>)
    requires Numbered(ps) && forall i :: 0 <= i < |qs| ==> qs[i] in ps
    ensures Numbered(qs)
  {
    forall i, j | 0 <= i < |qs| && 0 <= j < |qs| && qs[i].sequence == qs[j].sequence
      ensures qs[i].payload == qs[j].payload
    {
      var k :| 0 <= k < |ps| && ps[k] == qs[i];
      var l :| 0 <= l < |ps| && ps[l] == qs[j];
    }
  }

  /** However one coordinator's pushes are ordered and repeated, a member ends with the table
      of the highest number it was delivered, one generation per new maximum later. */
  lemma DeliveryTolerant(env: Env, n: Node, ps: seq<Push>) returns (best: Push)
    requires ps != [] && AllSent(env, ps) && Numbered(ps) && InRange(env, n.owners)
    requires n.version.Some? ==> n.version.value.coordinator != env.coordinator
    ensures Highest(ps, best) && Holds(env, DeliverAll(env, n, ps), best)
    ensures Generation(DeliverAll(env, n, ps).version) == Generation(n.version) + NewMaxima(0, ps)
  {
    DeliverFirst(env, n, ps[0]);
    assert [ps[0]] + ps[1..] == ps;
    best := DeliverRest(env, Deliver(env, n, ps[0]), ps[0], ps[1..]);
  }

  // The coordinator's numbers

  /** One recomputation: the table it produced and whether the coordinator installed it. */
  datatype Update = Update(payload: Payload, installed: bool)

  /** The number counter and the installed signature. */
  datatype Counter = Counter(sequence: nat, signature: nat)

  function NumberOf(env: Env, c: Counter, u: Update): nat {
    if env.sum64(u.payload) != c.signature then c.sequence + 1 else c.sequence
  }

  function AfterUpdate(env: Env, c: Counter, u: Update): Counter {
    Counter(NumberOf(env, c, u), if u.installed then env.sum64(u.payload) else c.signature)
  }

  /** The pushes of a run of updates. */
  function Pushes(env: Env, c: Counter, us: seq<Update>): seq<Push>
    decreases |us|
  {
    if us == [] then []
    else [Push(us[0].payload, NumberOf(env, c, us[0]))] + Pushes(env, AfterUpdate(env, c, us[0]), us[1..])
  }

  /** Equal non-zero numbers carry equal signatures. */
  ghost predicate SameSignatures(env: Env, ps: seq<Push>) {
    forall i, j :: 0 <= i < |ps| && 0 <= j < |ps| && ps[i].sequence == ps[j].sequence != 0 ==>
      env.sum64(ps[i].payload) == env.sum64(ps[j].payload)
  }

  /** A new table the coordinator could not install is directly followed by a recomputation
      that gives back the table it still has installed. */
  predicate RollsBack(env: Env, c: Counter, us: seq<Update>)
    decreases |us|
  {
    |us| >= 2
    && ((!us[0].installed && env.sum64(us[0].payload) != c.signature && env.sum64(us[1].payload) == c.signature)
        || RollsBack(env, AfterUpdate(env, c, us[0]), us[1..]))
  }

  lemma {:induction false} RollBackConfuses(env: Env, c: Counter, us: seq<Update>)
    requires RollsBack(env, c, us)
    ensures !SameSignatures(env, Pushes(env, c, us))
    decreases |us|
  {
    var ps, rest := Pushes(env, c, us), Pushes(env, AfterUpdate(env, c, us[0]), us[1..]);
    if !us[0].installed && env.sum64(us[0].payload) != c.signature && env.sum64(us[1].payload) == c.signature {
      assert ps[0] == Push(us[0].payload, c.sequence + 1);
      assert ps[1] == rest[0] == Push(us[1].payload, c.sequence + 1);
    } else {
      RollBackConfuses(env, AfterUpdate(env, c, us[0]), us[1..]);
      var i, j :| 0 <= i < |rest| && 0 <= j < |rest| && rest[i].sequence == rest[j].sequence != 0
        && env.sum64(rest[i].payload) != env.sum64(rest[j].payload);
      assert ps[i + 1] == rest[i] && ps[j + 1] == rest[j];
    }
  }

  /** Pushes so far: none is numbered above the counter, and those numbered like it have the
      signature `last`. */
  ghost predicate Below(env: Env, c: Counter, last: nat, ps: seq<Push>) {
    forall i :: 0 <= i < |ps| ==> ps[i].sequence <= c.sequence && (ps[i].sequence == c.sequence != 0 ==> env.sum64(ps[i].payload) == last)
  }

  lemma NextBelow(env: Env, c: Counter, last: nat, past: seq<Push>, u: Update)
    requires Below(env, c, last, past) && SameSignatures(env, past)
    requires env.sum64(u.payload) != c.signature || c.signature == last || c.sequence == 0
    ensures var past' := past + [Push(u.payload, NumberOf(env, c, u))];
            Below(env, AfterUpdate(env, c, u), env.sum64(u.payload), past') && SameSignatures(env, past')
  {
    var p := Push(u.payload, NumberOf(env, c, u));
    var past' := past + [p];
    forall i | 0 <= i < |past'|
      ensures past'[i].sequence <= p.sequence && (past'[i].sequence == p.sequence != 0 ==> env.sum64(past'[i].payload) == env.sum64(u.payload))
    {
      assert i < |past| ==> past'[i] == past[i];
    }
  }

  /** Nothing was pushed, the last push was installed, or it is one that was not. */
  ghost predicate Clean(c: Counter, last: nat) {
    c.sequence == 0 || c.signature == last
  }

  lemma {:induction false} NoRollBackKeeps(env: Env, c: Counter, last: nat, past: seq<Push>, us: seq<Update>)
    requires Below(env, c, last, past) && SameSignatures(env, past) && !RollsBack(env, c, us)
    requires us != [] && env.sum64(us[0].payload) == c.signature ==> Clean(c, last)
    ensures SameSignatures(env, past + Pushes(env, c, us))
    decreases |us|
  {
    if us == [] {
      assert past + Pushes(env, c, us) == past;
    } else {
      var u, c' := us[0], AfterUpdate(env, c, us[0]);
      var past' := past + [Push(u.payload, NumberOf(env, c, u))];
      NextBelow(env, c, last, past, u);
      NoRollBackKeeps(env, c', env.sum64(u.payload), past', us[1..]);
      assert past' + Pushes(env, c', us[1..]) == past + Pushes(env, c, us);
    }
  }

  /** Equal non-zero numbers carry equal signatures exactly when no failed install is rolled
      back by the next recomputation. */
  lemma NumbersAgreeIff(env: Env, signature: nat, us: seq<Update>)
    ensures var c := Counter(0, signature); SameSignatures(env, Pushes(env, c, us)) <==> !RollsBack(env, c, us)
  {
    var c := Counter(0, signature);
    if RollsBack(env, c, us) {
      RollBackConfuses(env, c, us);
    } else {
      NoRollBackKeeps(env, c, 0, [], us);
      assert [] + Pushes(env, c, us) == Pushes(env, c, us);
    }
  }

  /** The signature installed before update `i`: that of the last update installed, or the first one. */
  function InstalledBefore(env: Env, signature: nat, us: seq<Update>, i: nat): nat
    requires i <= |us|
  {
    if i == 0 then signature
    else if us[i - 1].installed then env.sum64(us[i - 1].payload)
    else InstalledBefore(env, signature, us, i - 1)
  }

  /** The updates up to `i` whose table was not the one installed. */
  function NewTables(env: Env, signature: nat, us: seq<Update>, i: nat): nat
    requires i <= |us|
  {
    if i == 0 then 0
    else NewTables(env, signature, us, i - 1) + if env.sum64(us[i - 1].payload) != InstalledBefore(env, signature, us, i - 1) then 1 else 0
  }

  lemma {:induction false} AfterFirst(env: Env, signature: nat, us: seq<Update>, i: nat)
    requires us != [] && i < |us|
    ensures var next := if us[0].installed then env.sum64(us[0].payload) else signature;
            && InstalledBefore(env, next, us[1..], i) == InstalledBefore(env, signature, us, i + 1)
            && NewTables(env, signature, us, i + 1) == NewTables(env, next, us[1..], i) + if env.sum64(us[0].payload) != signature then 1 else 0
  {
    if i > 0 {
      AfterFirst(env, signature, us, i - 1);
      assert us[1..][i - 1] == us[i];
    }
  }

  /** The push of update `i` carries its payload and is numbered by the new tables so far. */
  lemma {:induction false} PushesAre(env: Env, c: Counter, us: seq<Update>, i: nat)
    requires i < |us|
    ensures |Pushes(env, c, us)| == |us|
    ensures Pushes(env, c, us)[i] == Push(us[i].payload, c.sequence + NewTables(env, c.signature, us, i + 1))
    decreases |us|
  {
    if |us| == 1 {
      assert us[1..] == [];
    } else {
      PushesAre(env, AfterUpdate(env, c, us[0]), us[1..], if i == 0 then 0 else i - 1);
      if i > 0 {
        AfterFirst(env, c.signature, us, i);
        assert us[1..][i - 1] == us[i];
      }
    }
  }

  /** A node that has installed nothing has signature zero: its first push is number one, unless the
      table's hash is zero. */
  lemma FirstNumber(env: Env, u: Update)
    ensures NumberOf(env, Counter(0, Signature(None)), u) == if env.sum64(u.payload) == 0 then 0 else 1
  {
  }

  ghost predicate AllInstalled(us: seq<Update>) {
    forall i :: 0 <= i < |us| ==> us[i].installed
  }

  lemma {:induction false} InstalledNeverRollsBack(env: Env, c: Counter, us: seq<Update>)
    requires AllInstalled(us)
    ensures !RollsBack(env, c, us)
    decreases |us|
  {
    if |us| >= 2 {
      InstalledNeverRollsBack(env, AfterUpdate(env, c, us[0]), us[1..]);
    }
  }

  /** The hash tells the payloads of these pushes apart. */
  ghost predicate Collisionless(env: Env, ps: seq<Push>) {
    forall i, j :: 0 <= i < |ps| && 0 <= j < |ps| && env.sum64(ps[i].payload) == env.sum64(ps[j].payload) ==>
      ps[i].payload == ps[j].payload
  }

  /** The coordinator's run and the member's deliveries together: with every self-install a
      success, any selection of its numbered pushes, in any order and with repeats, leaves
      the member with the highest-numbered table delivered. */
  lemma PushProtocol(env: Env, signature: nat, us: seq<Update>, n: Node, ds: seq<Push>) returns (best: Push)
    requires AllInstalled(us) && Collisionless(env, Pushes(env, Counter(0, signature), us))
    requires ds != [] && AllSent(env, ds) && forall i :: 0 <= i < |ds| ==> ds[i] in Pushes(env, Counter(0, signature), us)
    requires InRange(env, n.owners) && (n.version.Some? ==> n.version.value.coordinator != env.coordinator)
    ensures Highest(ds, best) && Holds(env, DeliverAll(env, n, ds), best)
    ensures Generation(DeliverAll(env, n, ds).version) == Generation(n.version) + NewMaxima(0, ds)
  {
    var ps := Pushes(env, Counter(0, signature), us);
    InstalledNeverRollsBack(env, Counter(0, signature), us);
    NumbersAgreeIff(env, signature, us);
    DrawnNumbered(env, ps, ds);
    best := DeliveryTolerant(env, n, ds);
  }

  lemma DrawnNumbered(env: Env, ps: seq<Push>, ds: seq<Push>)
    requires SameSignatures(env, ps) && Collisionless(env, ps)
    requires AllSent(env, ds) && forall i :: 0 <= i < |ds| ==> ds[i] in ps
    ensures Numbered(ds)
  {
    hide InRange;
    forall i, j | 0 <= i < |ds| && 0 <= j < |ds| && ds[i].sequence == ds[j].sequence
      ensures ds[i].payload == ds[j].payload
    {
      assert Sent(env, ds[i]);
      var k :| 0 <= k < |ps| && ps[k] == ds[i];
      var l :| 0 <= l < |ps| && ps[l] == ds[j];
    }
  }

  // A rolled-back install

  /** Delivered one after the other, two tables of equal number replace each other: the last
      one delivered stays, whichever it is. */
  lemma EqualNumbersOverwrite(env: Env, n: Node, p: Push, q: Push)
    requires Sent(env, p) && Sent(env, q) && p.sequence == q.sequence && InRange(env, n.owners)
    requires n.version.Some? ==> n.version.value.coordinator != env.coordinator
    ensures Holds(env, DeliverAll(env, n, [p, q]), q) && Holds(env, DeliverAll(env, n, [q, p]), p)
  {
    TwoDeliveries(env, n, p, q);
    TwoDeliveries(env, n, q, p);
  }

  lemma TwoDeliveries(env: Env, n: Node, p: Push, q: Push)
    requires Sent(env, p) && Sent(env, q) && p.sequence == q.sequence && InRange(env, n.owners)
    requires n.version.Some? ==> n.version.value.coordinator != env.coordinator
    ensures Holds(env, DeliverAll(env, n, [p, q]), q)
  {
    DeliverFirst(env, n, p);
    var m := Deliver(env, n, p);
    FullTable(env, m.owners, env.unmarshal(q.payload).value);
    assert [p, q][1..] == [q] && [q][1..] == [];
    assert DeliverAll(env, m, [q]) == Deliver(env, m, q);
  }

  // Pulls

  /** A pull that replaces the installed table does nothing once any push was installed after
      it was issued; one that only bootstraps does nothing on a bootstrapped node. */
  lemma PullNeverRegresses(env: Env, n: Node, p: Push, payload: Payload, onlyBootstrap: bool)
    requires Sent(env, p) && Apply(env, n, p.payload, env.coordinator, p.sequence, false, None).1.Installed?
    ensures var pushed := Deliver(env, n, p);
            Apply(env, pushed, payload, env.coordinator, 0, onlyBootstrap, if onlyBootstrap then None else Some(n.installs)).0 == pushed
  {
  }

  /** A pull that confirms the installed table keeps the push that delivered it: the same push
      delivered again is recognised and the generation stays. */
  lemma PullKeepsIdentity(env: Env, n: Node, p: Push)
    requires Holds(env, n, p)
    ensures var pulled := Apply(env, n, p.payload, env.coordinator, 0, false, None).0;
            Holds(env, pulled, p) && Generation(Deliver(env, pulled, p).version) == Generation(n.version)
  {
    FullTable(env, n.owners, env.unmarshal(p.payload).value);
  }

  // In place

  /** The fields of a node's routing table that installs and commits change. */
  class RoutingTable {
    var version: Option<Version>
    var installs: nat
    var owners: RouteTable
    var bootstrapped: bool
    var tableSequence: nat
    var committed: Option<Payload>

    function State(): Node
      reads this
    {
      Node(version, installs, owners, bootstrapped)
    }

    constructor ()
      ensures State() == Node(None, 0, map[], false) && tableSequence == 0 && committed == None
    {
      version, installs, owners, bootstrapped, tableSequence, committed := None, 0, map[], false, 0, None;
    }

    method SetVersion(s: nat, coordinator: nat, sequence: nat)
      modifies this`version, this`installs
      ensures version == Some(NextVersion(old(version), s, coordinator, sequence)) && installs == old(installs) + 1
    {
      var generation, changed := 0, true;
      var sender, number := coordinator, sequence;
      if version.Some? {
        var current := version.value;
        generation := current.generation;
        changed := current.signature != s;
        if !changed && sequence != 0 && (current.coordinator != coordinator || current.sequence != sequence) {
          changed := true;
        }
        if !changed && sequence == 0 {
          sender, number := current.coordinator, current.sequence;
        }
      }
      if changed {
        generation := generation + 1;
      }
      version := Some(Version(s, generation, sender, number));
      installs := installs + 1;
    }

    method SetOwners(table: RouteTable)
      modifies this`owners
      ensures owners == old(owners) + table
    {
      var left := table.Keys;
      while left != {}
        invariant left <= table.Keys
        invariant owners.Keys == old(owners).Keys + (table.Keys - left)
        invariant forall p :: p in owners ==> owners[p] == if p in table && p !in left then table[p] else old(owners)[p]
        decreases left
      {
        var partID :| partID in left;
        owners := owners[partID := table[partID]];
        left := left - {partID};
      }
      assert owners == old(owners) + table;
    }

    method Install(s: nat, id: nat, sequence: nat, table: RouteTable)
      modifies this`version, this`installs, this`owners, this`bootstrapped
      ensures State() == Node(Some(NextVersion(old(version), s, id, sequence)), old(installs) + 1, old(owners) + table, true)
    {
      SetVersion(s, id, sequence);
      SetOwners(table);
      bootstrapped := true;
    }

    method ApplyPayload(env: Env, payload: Payload, id: nat, sequence: nat, onlyBootstrap: bool, expected: Option<nat>)
      returns (r: Applied)
      modifies this`version, this`installs, this`owners, this`bootstrapped
      ensures State() == Apply(env, old(State()), payload, id, sequence, onlyBootstrap, expected).0
      ensures r == Apply(env, old(State()), payload, id, sequence, onlyBootstrap, expected).1
    {
      hide NextVersion, Verified;
      if onlyBootstrap && bootstrapped {
        return Kept;
      }
      if expected.Some? && installs != expected.value {
        return Kept;
      }
      var decoded := env.unmarshal(payload);
      if decoded.None? {
        return Refused;
      }
      var table := decoded.value;
      if !Verified(env, id, table) {
        return Refused;
      }
      if sequence != 0 && version.Some? && version.value.coordinator == id && sequence < version.value.sequence {
        return Kept;
      }
      Install(env.sum64(payload), id, sequence, table);
      r := Installed;
    }

    /** updateRoutingWithReason from the computed table on; `reached` is whether the node's
        own push came through. The push is numbered with the counter and sent to everyone. */
    method UpdateRouting(env: Env, id: nat, data: Payload, reached: bool) returns (push: Push, ok: bool)
      modifies this
      ensures push == Push(data, NumberOf(env, Counter(old(tableSequence), Signature(old(version))), Update(data, true)))
      ensures tableSequence == push.sequence
      ensures var applied := Apply(env, old(State()), data, id, push.sequence, false, None);
              && State() == (if reached then applied.0 else old(State()))
              && ok == (reached && !applied.1.Refused?)
      ensures committed == if ok || old(committed).None? then Some(data) else old(committed)
    {
      var previousSignature := Signature(version);
      if env.sum64(data) != previousSignature {
        tableSequence := tableSequence + 1;
      }
      push := Push(data, tableSequence);
      var previous := committed;
      committed := Some(data);
      var applied := Refused;
      if reached {
        applied := ApplyPayload(env, data, id, tableSequence, false, None);
      }
      ok := !applied.Refused?;
      if !ok && previous.Some? {
        committed := previous;
      }
    }
  }
}
