/** Replicated reads and writes of one key on fixed owners: synchronous replication, no read
    repair, no delete or expiry. Node 0 is the primary owner, the others its backups. */
module Quorum {
  import opened Codec
  import opened Versions

  /** The quorums, the length of the key, and the table sizes of the primary and the backups. */
  datatype Config = Config(nodes: nat, readQuorum: nat, writeQuorum: nat, keyLength: nat, primarySize: nat, backupSize: nat)

  function RecordSize(cfg: Config, e: Copy): nat {
    METADATA_LENGTH + cfg.keyLength + |e.value|
  }

  /** The engine of the node has room for the record in a table. */
  predicate Accepts(cfg: Config, node: nat, e: Copy) {
    RecordSize(cfg, e) < if node == 0 then cfg.primarySize else cfg.backupSize
  }

  /** A put under the key lock: its entry, the next backup to call, and the nodes that
      stored it and said so. */
  datatype PutOp = PutOp(entry: Copy, next: nat, stored: set<nat>)

  /** A read: the answers so far. `start`, `acked` and `kept`, the copies and the acknowledged
      timestamps when it started, are history only. */
  datatype GetOp = GetOp(versions: seq<Version>, start: seq<Option<Copy>>, acked: set<int>, kept: set<int>)

  /** `clock` is the last timestamp taken under the key lock; `kept` are the acknowledged
      timestamps whose put the primary stored too. */
  datatype State = State(copies: seq<Option<Copy>>, put: Option<PutOp>, clock: int, acked: set<int>, kept: set<int>, gets: map<nat, GetOp>)

  /** A backup call: it can be skipped because the backup left the cluster, stored and
      acknowledged, refused by the backup, or fail, whether or not it was stored. */
  datatype Reply = Skipped | Stored | Refused | Failed(applied: bool)

  datatype Event =
    | PutBegin(entry: Copy)
    | PutBackup(reply: Reply)
    | PutPrimary
    | GetBegin(id: nat)
    | GetAnswer(id: nat, node: nat)
    | GetEnd(id: nat)

  predicate Answered(g: GetOp, node: nat) {
    exists i :: 0 <= i < |g.versions| && g.versions[i].host == node
  }

  /** The key lock admits one put at a time, stamped under it by a clock that does not go
      back. A record of exactly the table size keeps the primary's write from returning. A
      read starts with the primary's own copy. A node that is unreachable for a read never
      answers it; a backup without the key answers with an error, so only the primary
      contributes a nil version. */
  predicate Enabled(cfg: Config, s: State, e: Event) {
    |s.copies| == cfg.nodes > 0 && cfg.keyLength < MAX_KEY_LENGTH &&
    match e
    case PutBegin(entry) => s.put.None? && entry.timestamp >= s.clock
    case PutBackup(reply) =>
      && s.put.Some? && 0 < s.put.value.next < cfg.nodes
      && (reply.Stored? || reply == Failed(true) ==> Accepts(cfg, s.put.value.next, s.put.value.entry))
    case PutPrimary => s.put.Some? && s.put.value.next >= cfg.nodes && RecordSize(cfg, s.put.value.entry) != cfg.primarySize
    case GetBegin(id) => id !in s.gets
    case GetAnswer(id, node) =>
      && id in s.gets && node < cfg.nodes && !Answered(s.gets[id], node)
      && (node == 0 <==> s.gets[id].versions == []) && (node == 0 || s.copies[node].Some?)
    case GetEnd(id) => id in s.gets
  }

  function OnBackup(s: State, reply: Reply): State
    requires s.put.Some? && s.put.value.next < |s.copies|
  {
    var p := s.put.value;
    match reply
    case Skipped => s.(put := Some(p.(next := p.next + 1)))
    case Refused => s.(put := Some(p.(next := p.next + 1)))
    case Stored =>
      s.(copies := s.copies[p.next := Some(p.entry)], put := Some(p.(next := p.next + 1, stored := p.stored + {p.next})))
    case Failed(applied) =>
      s.(copies := if applied then s.copies[p.next := Some(p.entry)] else s.copies, put := None)
  }

  function Successful(cfg: Config, p: PutOp): set<nat> {
    if Accepts(cfg, 0, p.entry) then p.stored + {0} else p.stored
  }

  /** The local store, whose failure is only logged, and the count of successes. */
  function OnPrimary(cfg: Config, s: State): State
    requires s.put.Some? && |s.copies| > 0
  {
    var p := s.put.value;
    var stored := Accepts(cfg, 0, p.entry);
    var done := |Successful(cfg, p)| >= cfg.writeQuorum;
    s.(copies := if stored then s.copies[0 := Some(p.entry)] else s.copies, put := None,
       acked := if done then s.acked + {p.entry.timestamp} else s.acked,
       kept := if done && stored then s.kept + {p.entry.timestamp} else s.kept)
  }

  function Step(cfg: Config, s: State, e: Event): State
    requires Enabled(cfg, s, e)
  {
    match e
    case PutBegin(entry) => s.(put := Some(PutOp(entry, 1, {})), clock := entry.timestamp)
    case PutBackup(reply) => OnBackup(s, reply)
    case PutPrimary => OnPrimary(cfg, s)
    case GetBegin(id) => s.(gets := s.gets[id := GetOp([], s.copies, s.acked, s.kept)])
    case GetAnswer(id, node) =>
      var g := s.gets[id];
      s.(gets := s.gets[id := g.(versions := g.versions + [Version(node, s.copies[node])])])
    case GetEnd(id) => s.(gets := s.gets - {id})
  }

  datatype GetResult = Found(entry: Copy) | NotFound | NoQuorum

  /** What a read returns from the answers it got. */
  function ResultOf(cfg: Config, versions: seq<Version>): GetResult {
    if |versions| < cfg.readQuorum then NoQuorum
    else
      var sorted := SortStable(Present(versions));
      if sorted == [] then NotFound
      else if |sorted| < cfg.readQuorum then NoQuorum
      else if sorted[0].entry.Some? then Found(sorted[0].entry.value)
      else NotFound
  }

  // Copies only get newer

  predicate AtLeast(c: Option<Copy>, t: int) {
    c.Some? && c.value.timestamp >= t
  }

  /** The nodes with a copy at least as new as `t`. */
  function Holders(copies: seq<Option<Copy>>, t: int): set<nat> {
    set n | 0 <= n < |copies| && AtLeast(copies[n], t)
  }

  predicate Newer(c: Option<Copy>, d: Option<Copy>) {
    c.Some? ==> AtLeast(d, c.value.timestamp)
  }

  ghost predicate AllNewer(cs: seq<Option<Copy>>, ds: seq<Option<Copy>>) {
    |cs| == |ds| && forall n :: 0 <= n < |cs| ==> Newer(cs[n], ds[n])
  }

  /** No copy is newer than the put in flight, or than the last put. */
  ghost predicate Bounded(s: State) {
    && (forall n :: 0 <= n < |s.copies| && s.copies[n].Some? ==> s.copies[n].value.timestamp <= s.clock)
    && (s.put.Some? ==> s.put.value.entry.timestamp == s.clock)
  }

  /** The nodes that stored the put in flight still have it; they were called in order and had
      room for it. */
  ghost predicate Underway(cfg: Config, s: State) {
    s.put.Some? ==>
      && s.put.value.next >= 1
      && (forall n :: n in s.put.value.stored ==> 0 < n < s.put.value.next && n < |s.copies| && AtLeast(s.copies[n], s.put.value.entry.timestamp))
      && (s.put.value.stored != {} ==> RecordSize(cfg, s.put.value.entry) < cfg.backupSize)
  }

  /** What the primary stored and acknowledged it still has, or something newer. */
  ghost predicate AtPrimary(copies: seq<Option<Copy>>, kept: set<int>) {
    forall t :: t in kept ==> copies != [] && AtLeast(copies[0], t)
  }

  /** Every acknowledged put was stored by the primary, when no record fits the backups and is
      refused by the primary. */
  ghost predicate AllKept(cfg: Config, s: State) {
    PrimaryFirst(cfg) ==> s.acked == s.kept && forall id :: id in s.gets ==> s.gets[id].acked == s.gets[id].kept
  }

  /** A record longer than the primary's tables does not fit the backups' either. */
  predicate PrimaryFirst(cfg: Config) {
    cfg.writeQuorum >= 1 && cfg.backupSize <= cfg.primarySize + 1
  }

  /** Every acknowledged write is on a write quorum of nodes, or overwritten there. */
  ghost predicate Durable(cfg: Config, copies: seq<Option<Copy>>, acked: set<int>) {
    forall t :: t in acked ==> |Holders(copies, t)| >= cfg.writeQuorum
  }

  /** A read's answers are at least as new as the copies were when it started. */
  ghost predicate Fresh(cfg: Config, s: State, g: GetOp) {
    && AllNewer(g.start, s.copies)
    && Durable(cfg, g.start, g.acked)
    && AtPrimary(g.start, g.kept)
    && (g.versions != [] ==> g.versions[0].host == 0)
    && (forall i :: 0 < i < |g.versions| ==> g.versions[i].entry.Some?)
    && (forall i :: 0 <= i < |g.versions| ==> g.versions[i].host < |g.start| && Newer(g.start[g.versions[i].host], g.versions[i].entry))
    && (forall i, j :: 0 <= i < j < |g.versions| ==> g.versions[i].host != g.versions[j].host)
  }

  ghost predicate Inv(cfg: Config, s: State) {
    && |s.copies| == cfg.nodes > 0
    && Bounded(s) && Underway(cfg, s) && Durable(cfg, s.copies, s.acked) && AtPrimary(s.copies, s.kept) && AllKept(cfg, s)
    && forall id :: id in s.gets ==> Fresh(cfg, s, s.gets[id])
  }

  lemma {:induction false} SubsetSize(a: set<nat>, b: set<nat>)
    requires a <= b
    ensures |a| <= |b|
  {
    if a != {} {
      var x :| x in a;
      SubsetSize(a - {x}, b - {x});
    }
  }

  lemma NewerDurable(cfg: Config, cs: seq<Option<Copy>>, ds: seq<Option<Copy>>, acked: set<int>)
    requires AllNewer(cs, ds) && Durable(cfg, cs, acked)
    ensures Durable(cfg, ds, acked)
  {
    forall t | t in acked
      ensures |Holders(ds, t)| >= cfg.writeQuorum
    {
      forall n | n in Holders(cs, t)
        ensures n in Holders(ds, t)
      {
        assert Newer(cs[n], ds[n]);
      }
      SubsetSize(Holders(cs, t), Holders(ds, t));
    }
  }

  lemma StepNewer(cfg: Config, s: State, e: Event)
    requires Enabled(cfg, s, e) && Inv(cfg, s)
    ensures AllNewer(s.copies, Step(cfg, s, e).copies)
    ensures Bounded(Step(cfg, s, e)) && Underway(cfg, Step(cfg, s, e))
  {
    hide Durable, Fresh, AtPrimary, AllKept, Answered, Successful;
  }

  lemma StepKept(cfg: Config, s: State, e: Event)
    requires Enabled(cfg, s, e) && Inv(cfg, s)
    ensures AtPrimary(Step(cfg, s, e).copies, Step(cfg, s, e).kept) && AllKept(cfg, Step(cfg, s, e))
  {
    hide Durable, Fresh, Answered, Holders;
    StepNewer(cfg, s, e);
    var r := Step(cfg, s, e);
    assert Newer(s.copies[0], r.copies[0]);
    if e.PutPrimary? && PrimaryFirst(cfg) {
      assert s.put.value.stored == {} || Accepts(cfg, 0, s.put.value.entry);
    }
  }

  lemma PrimaryHolders(cfg: Config, s: State)
    requires Enabled(cfg, s, PutPrimary) && Inv(cfg, s)
    ensures var p := s.put.value;
            |Successful(cfg, p)| <= |Holders(Step(cfg, s, PutPrimary).copies, p.entry.timestamp)|
  {
    hide Fresh, AtPrimary, AllKept, Answered, Durable, Accepts;
    var p := s.put.value;
    var holders := Holders(Step(cfg, s, PutPrimary).copies, p.entry.timestamp);
    assert Successful(cfg, p) <= holders;
    SubsetSize(Successful(cfg, p), holders);
  }

  lemma StepDurable(cfg: Config, s: State, e: Event)
    requires Enabled(cfg, s, e) && Inv(cfg, s)
    ensures Durable(cfg, Step(cfg, s, e).copies, Step(cfg, s, e).acked)
  {
    hide Fresh, AtPrimary, AllKept, Answered, Bounded, Underway, Holders, Accepts, Successful;
    StepNewer(cfg, s, e);
    NewerDurable(cfg, s.copies, Step(cfg, s, e).copies, s.acked);
    if e.PutPrimary? {
      PrimaryHolders(cfg, s);
    }
  }

  lemma FreshLater(cfg: Config, s: State, r: State, g: GetOp)
    requires Fresh(cfg, s, g) && AllNewer(s.copies, r.copies)
    ensures Fresh(cfg, r, g)
  {
    hide Durable;
    forall n | 0 <= n < |g.start|
      ensures Newer(g.start[n], r.copies[n])
    {
      assert Newer(g.start[n], s.copies[n]) && Newer(s.copies[n], r.copies[n]);
    }
  }

  lemma FreshAnswer(cfg: Config, s: State, g: GetOp, node: nat)
    requires Fresh(cfg, s, g) && node < |s.copies| && !Answered(g, node)
    requires (node == 0 <==> g.versions == []) && (node == 0 || s.copies[node].Some?)
    ensures Fresh(cfg, s, g.(versions := g.versions + [Version(node, s.copies[node])]))
  {
    hide Durable;
    assert Newer(g.start[node], s.copies[node]);
  }

  lemma StepInv(cfg: Config, s: State, e: Event)
    requires Enabled(cfg, s, e) && Inv(cfg, s)
    ensures Inv(cfg, Step(cfg, s, e))
  {
    hide Durable, Fresh, Bounded, Underway, AtPrimary, AllKept;
    var r := Step(cfg, s, e);
    StepNewer(cfg, s, e);
    StepKept(cfg, s, e);
    StepDurable(cfg, s, e);
    forall id | id in r.gets
      ensures Fresh(cfg, r, r.gets[id])
    {
      if e.GetBegin? && id == e.id {
        FreshStart(cfg, s);
        FreshLater(cfg, s, r, r.gets[id]);
      } else {
        if e.GetAnswer? && id == e.id {
          FreshAnswer(cfg, s, s.gets[id], e.node);
        }
        FreshLater(cfg, s, r, r.gets[id]);
      }
    }
  }

  lemma FreshStart(cfg: Config, s: State)
    requires Durable(cfg, s.copies, s.acked) && AtPrimary(s.copies, s.kept)
    ensures Fresh(cfg, s, GetOp([], s.copies, s.acked, s.kept))
  {
  }

  // Reads see acknowledged writes

  ghost function Hosts(vs: seq<Version>): set<nat> {
    set i | 0 <= i < |vs| :: vs[i].host
  }

  ghost predicate DistinctHosts(vs: seq<Version>) {
    forall i, j :: 0 <= i < j < |vs| ==> vs[i].host != vs[j].host
  }

  lemma {:induction false} HostsSize(vs: seq<Version>)
    requires DistinctHosts(vs)
    ensures |Hosts(vs)| == |vs|
  {
    if vs != [] {
      var k := |vs| - 1;
      HostsSize(vs[..k]);
      assert Hosts(vs) == Hosts(vs[..k]) + {vs[k].host};
      assert vs[k].host !in Hosts(vs[..k]);
    }
  }

  lemma {:induction false} PresentDistinct(vs: seq<Version>)
    requires DistinctHosts(vs)
    ensures DistinctHosts(Present(vs))
  {
    if vs != [] {
      PresentDistinct(vs[1..]);
      var ps := Present(vs[1..]);
      forall j | 0 <= j < |ps|
        ensures ps[j].host != vs[0].host
      {
        PresentIs(vs[1..], ps[j]);
        var i :| 0 <= i < |vs[1..]| && vs[1..][i] == ps[j];
        assert vs[i + 1] == ps[j];
      }
    }
  }

  /** Two sets of nodes that together are more than all of them share one. */
  lemma Overlap(a: set<nat>, b: set<nat>, n: nat) returns (x: nat)
    requires (forall y :: y in a ==> y < n) && (forall y :: y in b ==> y < n) && |a| + |b| > n
    ensures x in a && x in b
  {
    if a * b == {} {
      assert |a + b| == |a| + |b|;
      Within(a + b, n);
      assert false;
    }
    x :| x in a * b;
  }

  lemma {:induction false} Within(a: set<nat>, n: nat)
    requires forall y :: y in a ==> y < n
    ensures |a| <= n
  {
    if n > 0 {
      Within(a - {n - 1}, n - 1);
    } else {
      assert a == {};
    }
  }

  /** An answer at least as new as `t` makes the result one, or no quorum. */
  predicate AtLeastAsNew(r: GetResult, t: int) {
    r.NoQuorum? || (r.Found? && r.entry.timestamp >= t)
  }

  lemma AnswerDecides(cfg: Config, vs: seq<Version>, i: nat, t: int)
    requires i < |vs| && AtLeast(vs[i].entry, t)
    ensures AtLeastAsNew(ResultOf(cfg, vs), t)
  {
    hide SortStable, Present;
    PresentIs(vs, vs[i]);
    PresentSize(vs);
    WinnerIsNewest(vs);
  }

  /** With R + W more than the nodes, a read that began after a put was acknowledged and heard
      the primary returns an entry at least as new or reports no quorum: it is never told that
      there is no such key. */
  lemma ReadSeesAcked(cfg: Config, s: State, id: nat, t: int)
    requires Inv(cfg, s) && id in s.gets && t in s.gets[id].acked && s.gets[id].versions != []
    requires cfg.readQuorum + cfg.writeQuorum > cfg.nodes
    ensures AtLeastAsNew(ResultOf(cfg, s.gets[id].versions), t)
  {
    hide Bounded, Underway, SortStable, Present, AllKept, AtPrimary;
    var g := s.gets[id];
    var ps := Present(g.versions);
    PresentSize(g.versions);
    if |ps| >= cfg.readQuorum {
      var n := PresentHolder(cfg, s, id, t);
      var i :| 0 <= i < |g.versions| && g.versions[i].host == n && g.versions[i].entry.Some?;
      AnswerDecides(cfg, g.versions, i, t);
    } else if ps == [] {
      OnlyNil(g.versions);
      if cfg.readQuorum <= 1 {
        AllHold(cfg, g.start, t);
        AnswerDecides(cfg, g.versions, 0, t);
      }
    }
  }

  lemma PresentHolder(cfg: Config, s: State, id: nat, t: int) returns (n: nat)
    requires Inv(cfg, s) && id in s.gets && t in s.gets[id].acked && |Present(s.gets[id].versions)| >= cfg.readQuorum
    requires cfg.readQuorum + cfg.writeQuorum > cfg.nodes
    ensures exists i :: 0 <= i < |s.gets[id].versions| && s.gets[id].versions[i].host == n && AtLeast(s.gets[id].versions[i].entry, t)
    ensures forall i :: 0 <= i < |s.gets[id].versions| && s.gets[id].versions[i].host == n ==> AtLeast(s.gets[id].versions[i].entry, t)
  {
    hide Bounded, Underway, Present, AllKept, AtPrimary;
    var g := s.gets[id];
    var ps := Present(g.versions);
    PresentDistinct(g.versions);
    HostsSize(ps);
    forall n | n in Hosts(ps)
      ensures n < cfg.nodes
    {
      var i :| 0 <= i < |ps| && ps[i].host == n;
      PresentIs(g.versions, ps[i]);
    }
    n := Overlap(Hosts(ps), Holders(g.start, t), cfg.nodes);
    var i :| 0 <= i < |ps| && ps[i].host == n;
    PresentIs(g.versions, ps[i]);
    var j :| 0 <= j < |g.versions| && g.versions[j] == ps[i];
    forall k | 0 <= k < |g.versions| && g.versions[k].host == n
      ensures AtLeast(g.versions[k].entry, t)
    {
      assert Newer(g.start[n], g.versions[k].entry);
    }
  }

  /** When nothing but nil was answered, only the primary answered. */
  lemma OnlyNil(vs: seq<Version>)
    requires Present(vs) == [] && forall i :: 0 < i < |vs| ==> vs[i].entry.Some?
    ensures |vs| <= 1
  {
    if |vs| > 1 {
      PresentIs(vs, vs[1]);
    }
  }

  /** A write quorum of all nodes includes the primary. */
  lemma AllHold(cfg: Config, copies: seq<Option<Copy>>, t: int)
    requires |copies| == cfg.nodes > 0 && |Holders(copies, t)| >= cfg.nodes
    ensures AtLeast(copies[0], t)
  {
    if 0 !in Holders(copies, t) {
      AllButZero(Holders(copies, t), cfg.nodes);
    }
  }

  lemma AllButZero(a: set<nat>, n: nat)
    requires n > 0 && 0 !in a && forall y :: y in a ==> y < n
    ensures |a| < n
  {
    Within(a + {0}, n);
  }

  /** For any quorums, a read that began after the primary stored and acknowledged a put, and
      heard the primary, returns an entry at least as new or reports no quorum. */
  lemma ReadSeesKept(cfg: Config, s: State, id: nat, t: int)
    requires Inv(cfg, s) && id in s.gets && t in s.gets[id].kept && s.gets[id].versions != []
    ensures AtLeastAsNew(ResultOf(cfg, s.gets[id].versions), t)
  {
    hide Bounded, Underway, AllKept, Durable;
    var g := s.gets[id];
    assert Newer(g.start[0], g.versions[0].entry);
    AnswerDecides(cfg, g.versions, 0, t);
  }

  lemma PresentSize(vs: seq<Version>)
    ensures |SortStable(Present(vs))| == |Present(vs)|
  {
    SortStableSorts(Present(vs), 0);
    assert |multiset(SortStable(Present(vs)))| == |SortStable(Present(vs))|;
    assert |multiset(Present(vs))| == |Present(vs)|;
  }

  // Runs

  predicate Legal(cfg: Config, s: State, es: seq<Event>)
    decreases |es|
  {
    es == [] || (Enabled(cfg, s, es[0]) && Legal(cfg, Step(cfg, s, es[0]), es[1..]))
  }

  function After(cfg: Config, s: State, es: seq<Event>): State
    requires Legal(cfg, s, es)
    decreases |es|
  {
    if es == [] then s else After(cfg, Step(cfg, s, es[0]), es[1..])
  }

  predicate Initial(cfg: Config, s: State) {
    cfg.nodes > 0 && |s.copies| == cfg.nodes && (forall n :: 0 <= n < |s.copies| ==> s.copies[n] == None)
    && s.put.None? && s.acked == {} && s.kept == {} && s.gets == map[]
  }

  lemma {:induction false} RunInv(cfg: Config, s: State, es: seq<Event>)
    requires Inv(cfg, s) && Legal(cfg, s, es)
    ensures Inv(cfg, After(cfg, s, es))
    decreases |es|
  {
    hide Inv, Step, Enabled;
    if es != [] {
      StepInv(cfg, s, es[0]);
      RunInv(cfg, Step(cfg, s, es[0]), es[1..]);
    }
  }

  /** A run in which read `id` begins after `before` and is still open after `between`, having
      heard the primary. */
  ghost predicate ReadRun(cfg: Config, s: State, before: seq<Event>, id: nat, between: seq<Event>) {
    && Initial(cfg, s) && Legal(cfg, s, before)
    && Enabled(cfg, After(cfg, s, before), GetBegin(id))
    && Legal(cfg, Step(cfg, After(cfg, s, before), GetBegin(id)), between)
    && (forall i :: 0 <= i < |between| ==> between[i] != GetEnd(id))
    && var r := After(cfg, Step(cfg, After(cfg, s, before), GetBegin(id)), between);
       id in r.gets && r.gets[id].versions != []
  }

  /** What the read returns. */
  ghost function Returned(cfg: Config, s: State, before: seq<Event>, id: nat, between: seq<Event>): GetResult
    requires ReadRun(cfg, s, before, id, between)
  {
    ResultOf(cfg, After(cfg, Step(cfg, After(cfg, s, before), GetBegin(id)), between).gets[id].versions)
  }

  lemma ReadState(cfg: Config, s: State, before: seq<Event>, id: nat, between: seq<Event>)
    requires ReadRun(cfg, s, before, id, between)
    ensures var r := After(cfg, Step(cfg, After(cfg, s, before), GetBegin(id)), between);
            Inv(cfg, r) && r.gets[id].acked == After(cfg, s, before).acked && r.gets[id].kept == After(cfg, s, before).kept
    ensures Inv(cfg, After(cfg, s, before))
  {
    hide After, Legal, Step, Inv;
    InitialInv(cfg, s);
    RunInv(cfg, s, before);
    var s1 := After(cfg, s, before);
    StepInv(cfg, s1, GetBegin(id));
    Begun(cfg, s1, id);
    var s2 := Step(cfg, s1, GetBegin(id));
    RunInv(cfg, s2, between);
    StaysOpen(cfg, s2, id, between);
  }

  /** Over every interleaving of puts, aborted puts and reads, with R + W over the node count: a
      read begun after a put was acknowledged returns nothing older, and never that the key is
      absent. */
  lemma QuorumReads(cfg: Config, s: State, before: seq<Event>, id: nat, between: seq<Event>, t: int)
    requires cfg.readQuorum + cfg.writeQuorum > cfg.nodes
    requires ReadRun(cfg, s, before, id, between) && t in After(cfg, s, before).acked
    ensures AtLeastAsNew(Returned(cfg, s, before, id, between), t)
  {
    hide After, Legal, Step, ResultOf, Inv;
    ReadState(cfg, s, before, id, between);
    ReadSeesAcked(cfg, After(cfg, Step(cfg, After(cfg, s, before), GetBegin(id)), between), id, t);
  }

  /** The same for any quorums, when the primary stored the put. */
  lemma PrimaryReads(cfg: Config, s: State, before: seq<Event>, id: nat, between: seq<Event>, t: int)
    requires ReadRun(cfg, s, before, id, between) && t in After(cfg, s, before).kept
    ensures AtLeastAsNew(Returned(cfg, s, before, id, between), t)
  {
    hide After, Legal, Step, ResultOf, Inv;
    ReadState(cfg, s, before, id, between);
    ReadSeesKept(cfg, After(cfg, Step(cfg, After(cfg, s, before), GetBegin(id)), between), id, t);
  }

  /** And so for any quorums and every acknowledged put, when no record is refused by the
      primary and stored by a backup. */
  lemma UniformReads(cfg: Config, s: State, before: seq<Event>, id: nat, between: seq<Event>, t: int)
    requires PrimaryFirst(cfg) && ReadRun(cfg, s, before, id, between) && t in After(cfg, s, before).acked
    ensures AtLeastAsNew(Returned(cfg, s, before, id, between), t)
  {
    hide After, Legal, Step, ResultOf, Inv;
    ReadState(cfg, s, before, id, between);
    KeptOf(cfg, After(cfg, s, before));
    PrimaryReads(cfg, s, before, id, between, t);
  }

  lemma KeptOf(cfg: Config, s: State)
    requires Inv(cfg, s) && PrimaryFirst(cfg)
    ensures s.acked == s.kept
  {
  }

  lemma InitialInv(cfg: Config, s: State)
    requires Initial(cfg, s)
    ensures Inv(cfg, s)
  {
  }

  lemma Begun(cfg: Config, s: State, id: nat)
    requires Enabled(cfg, s, GetBegin(id))
    ensures var r := Step(cfg, s, GetBegin(id)); id in r.gets && r.gets[id].acked == s.acked && r.gets[id].kept == s.kept
  {
  }

  lemma StepOpen(cfg: Config, s: State, id: nat, e: Event)
    requires Enabled(cfg, s, e) && id in s.gets && e != GetEnd(id)
    ensures var r := Step(cfg, s, e); id in r.gets && r.gets[id].acked == s.gets[id].acked && r.gets[id].kept == s.gets[id].kept
  {
  }

  lemma {:induction false} StaysOpen(cfg: Config, s: State, id: nat, es: seq<Event>)
    requires Legal(cfg, s, es) && id in s.gets && forall i :: 0 <= i < |es| ==> es[i] != GetEnd(id)
    ensures var r := After(cfg, s, es); id in r.gets && r.gets[id].acked == s.gets[id].acked && r.gets[id].kept == s.gets[id].kept
    decreases |es|
  {
    hide Step, Enabled;
    if es != [] {
      StepOpen(cfg, s, id, es[0]);
      assert forall i :: 0 <= i < |es[1..]| ==> es[1..][i] == es[i + 1];
      StaysOpen(cfg, Step(cfg, s, es[0]), id, es[1..]);
    }
  }
}
