/** What a read returns and when a write is acknowledged, counted in the answers and replies. */
module QuorumLaws {
  import opened Codec
  import opened Versions
  import opened Quorum
  import opened QuorumTight

  // The result of a read

  /** How many of the answers are not nil. */
  function PresentCount(vs: seq<Version>): nat {
    if vs == [] then 0 else PresentCount(vs[..|vs| - 1]) + if vs[|vs| - 1].entry.Some? then 1 else 0
  }

  lemma {:induction false} CountCons(v: Version, vs: seq<Version>)
    ensures PresentCount([v] + vs) == PresentCount(vs) + if v.entry.Some? then 1 else 0
  {
    if vs == [] {
      assert [v] + vs == [v] && [v][..0] == [];
    } else {
      var n := |vs| - 1;
      assert ([v] + vs)[..n + 1] == [v] + vs[..n];
      CountCons(v, vs[..n]);
    }
  }

  lemma {:induction false} PresentCounts(vs: seq<Version>)
    ensures |Present(vs)| == PresentCount(vs)
  {
    if vs != [] {
      PresentCounts(vs[1..]);
      assert vs == [vs[0]] + vs[1..];
      CountCons(vs[0], vs[1..]);
    }
  }

  /** With R answers or more, a read finds an entry if R of them and at least one are not nil, and
      no key if all are nil; with too few of either it has no quorum. */
  lemma ResultIff(cfg: Config, vs: seq<Version>)
    ensures var n := PresentCount(vs);
            && (ResultOf(cfg, vs).Found? <==> |vs| >= cfg.readQuorum && n >= cfg.readQuorum && n > 0)
            && (ResultOf(cfg, vs).NotFound? <==> |vs| >= cfg.readQuorum && n == 0)
            && (ResultOf(cfg, vs).NoQuorum? <==> |vs| < cfg.readQuorum || 0 < n < cfg.readQuorum)
  {
    hide SortStable, Present, PresentCount;
    PresentCounts(vs);
    PresentSize(vs);
    if Present(vs) != [] {
      WinnerIsNewest(vs);
    }
  }

  /** The entry found is one that was answered, value and all; none answered is newer, and none
      answered before it is as new. */
  lemma ResultIs(cfg: Config, vs: seq<Version>) returns (i: nat)
    requires ResultOf(cfg, vs).Found?
    ensures i < |vs| && vs[i].entry == Some(ResultOf(cfg, vs).entry)
    ensures forall j :: 0 <= j < |vs| && vs[j].entry.Some? ==> vs[j].entry.value.timestamp <= ResultOf(cfg, vs).entry.timestamp
    ensures forall j :: 0 <= j < i && vs[j].entry.Some? ==> vs[j].entry.value.timestamp < ResultOf(cfg, vs).entry.timestamp
  {
    PresentSize(vs);
    hide SortStable, Present, Stamped;
    WinnerIsNewest(vs);
    var w := SortStable(Present(vs))[0];
    i := FirstStamped(vs, Stamp(w));
    forall j | 0 <= j < |vs| && vs[j].entry.Some?
      ensures vs[j].entry.value.timestamp <= w.entry.value.timestamp
    {
      assert vs[j] in vs;
    }
  }

  lemma {:induction false} FirstStamped(vs: seq<Version>, t: int) returns (i: nat)
    requires Stamped(Present(vs), t) != []
    ensures i < |vs| && vs[i] == Stamped(Present(vs), t)[0] && vs[i].entry.Some?
    ensures forall j :: 0 <= j < i && vs[j].entry.Some? ==> Stamp(vs[j]) != t
  {
    if vs[0].entry.Some? && Stamp(vs[0]) == t {
      i := 0;
    } else {
      if vs[0].entry.Some? {
        assert Present(vs)[1..] == Present(vs[1..]);
      }
      var k := FirstStamped(vs[1..], t);
      i := k + 1;
      forall j | 0 <= j < i && vs[j].entry.Some?
        ensures Stamp(vs[j]) != t
      {
        if j > 0 {
          assert vs[j] == vs[1..][j - 1];
        }
      }
    }
  }

  // Runs, from the end

  lemma Snoc(cfg: Config, s: State, es: seq<Event>, e: Event)
    requires Legal(cfg, s, es) && Enabled(cfg, After(cfg, s, es), e)
    ensures Legal(cfg, s, es + [e]) && After(cfg, s, es + [e]) == Step(cfg, After(cfg, s, es), e)
  {
    hide Step, Enabled;
    One(cfg, After(cfg, s, es), e);
    Concat(cfg, s, es, [e]);
  }

  lemma {:induction false} Unsnoc(cfg: Config, s: State, es: seq<Event>)
    requires Legal(cfg, s, es) && es != []
    ensures var n := |es| - 1;
            && Legal(cfg, s, es[..n]) && Enabled(cfg, After(cfg, s, es[..n]), es[n])
            && After(cfg, s, es) == Step(cfg, After(cfg, s, es[..n]), es[n])
    decreases |es|
  {
    hide Step, Enabled;
    var n := |es| - 1;
    if n == 0 {
      assert es[..0] == [] && es[1..] == [];
    } else {
      Unsnoc(cfg, Step(cfg, s, es[0]), es[1..]);
      assert es[1..][..n - 1] == es[..n][1..] && es[..n][0] == es[0] && es[1..][n - 1] == es[n];
    }
  }

  // What is read was written

  /** The copy was put in the run. */
  ghost predicate Written(es: seq<Event>, c: Copy) {
    exists i :: 0 <= i < |es| && es[i] == PutBegin(c)
  }

  lemma WrittenMore(es: seq<Event>, e: Event, c: Copy)
    ensures Written(es, c) ==> Written(es + [e], c)
    ensures e == PutBegin(c) ==> Written(es + [e], c)
  {
    if Written(es, c) {
      var i :| 0 <= i < |es| && es[i] == PutBegin(c);
      assert (es + [e])[i] == PutBegin(c);
    }
    assert (es + [e])[|es|] == e;
  }

  /** Every copy, every answer and the put under way come from puts of the run. */
  ghost predicate Sourced(s: State, es: seq<Event>) {
    && (forall n :: 0 <= n < |s.copies| && s.copies[n].Some? ==> Written(es, s.copies[n].value))
    && (s.put.Some? ==> Written(es, s.put.value.entry))
    && (forall id, i :: id in s.gets && 0 <= i < |s.gets[id].versions| && s.gets[id].versions[i].entry.Some? ==>
          Written(es, s.gets[id].versions[i].entry.value))
  }

  lemma StepSourced(cfg: Config, s: State, e: Event, es: seq<Event>)
    requires Enabled(cfg, s, e) && Sourced(s, es)
    ensures Sourced(Step(cfg, s, e), es + [e])
  {
    hide Written, Answered, Accepts, Successful;
    forall c
      ensures Written(es, c) ==> Written(es + [e], c)
      ensures e == PutBegin(c) ==> Written(es + [e], c)
    {
      WrittenMore(es, e, c);
    }
  }

  lemma {:induction false} RunSourced(cfg: Config, s: State, es: seq<Event>)
    requires Initial(cfg, s) && Legal(cfg, s, es)
    ensures Sourced(After(cfg, s, es), es)
    decreases |es|
  {
    if es != [] {
      hide Step, Enabled, Sourced, Legal, After;
      var n := |es| - 1;
      Unsnoc(cfg, s, es);
      RunSourced(cfg, s, es[..n]);
      StepSourced(cfg, After(cfg, s, es[..n]), es[n], es[..n]);
      assert es[..n] + [es[n]] == es;
    }
  }

  /** An entry that a read returns was put, with that value and that timestamp, before the read
      returned. */
  lemma ReadWasPut(cfg: Config, s: State, before: seq<Event>, id: nat, between: seq<Event>)
    requires ReadRun(cfg, s, before, id, between) && Returned(cfg, s, before, id, between).Found?
    ensures Written(before + [GetBegin(id)] + between, Returned(cfg, s, before, id, between).entry)
  {
    hide Step, Enabled, Legal, After, ResultOf;
    Snoc(cfg, s, before, GetBegin(id));
    Concat(cfg, s, before + [GetBegin(id)], between);
    var es := before + [GetBegin(id)] + between;
    RunSourced(cfg, s, es);
    var i := ResultIs(cfg, After(cfg, s, es).gets[id].versions);
  }

  // When a write is acknowledged

  /** The replies after `b` by which a backup said that it stored the record. */
  function StoredReplies(es: seq<Event>, b: nat): nat {
    if |es| <= b + 1 then 0
    else StoredReplies(es[..|es| - 1], b) + if es[|es| - 1] == PutBackup(Stored) then 1 else 0
  }

  /** All replies after `b`. */
  function Replied(es: seq<Event>, b: nat): nat {
    if |es| <= b + 1 then 0 else Replied(es[..|es| - 1], b) + if es[|es| - 1].PutBackup? then 1 else 0
  }

  /** The put under way began with event `b`; it has called the backups one after the other, and
      none of those calls failed. */
  ghost predicate BeganAt(s: State, es: seq<Event>, b: nat) {
    && b < |es| && s.put.Some? && es[b] == PutBegin(s.put.value.entry)
    && (forall j :: b < j < |es| ==> !es[j].PutBegin? && !(es[j].PutBackup? && es[j].reply.Failed?))
    && |s.put.value.stored| == StoredReplies(es, b)
    && s.put.value.next == 1 + Replied(es, b)
  }

  /** An event changes the copy of one node at most: the backup called, when it stored the record,
      and the primary at the end, when it has room for it. */
  lemma CopiesAre(cfg: Config, s: State, e: Event, n: nat)
    requires Enabled(cfg, s, e) && n < cfg.nodes
    ensures var called := e.PutBackup? && s.put.value.next == n && (e.reply.Stored? || e.reply == Failed(true));
            var local := e.PutPrimary? && n == 0 && 29 + cfg.keyLength + |s.put.value.entry.value| < cfg.primarySize;
            Step(cfg, s, e).copies[n] == if called || local then Some(s.put.value.entry) else s.copies[n]
  {
  }

  /** A put is under way from its beginning until the primary's turn is over or a call fails. */
  lemma PutIs(cfg: Config, s: State, e: Event)
    requires Enabled(cfg, s, e)
    ensures Step(cfg, s, e).put.Some? <==>
              e.PutBegin? || (s.put.Some? && !e.PutPrimary? && !(e.PutBackup? && e.reply.Failed?))
    ensures e.PutBegin? ==> s.put.None?
  {
  }

  lemma StepBegan(cfg: Config, s: State, e: Event, es: seq<Event>, b: nat)
    requires Enabled(cfg, s, e) && Inv(cfg, s) && BeganAt(s, es, b) && Step(cfg, s, e).put.Some?
    ensures BeganAt(Step(cfg, s, e), es + [e], b)
  {
    hide Durable, Fresh, AtPrimary, AllKept, Answered, Accepts, Bounded;
    assert (es + [e])[..|es|] == es;
    if e == PutBackup(Stored) {
      assert s.put.value.next !in s.put.value.stored;
    }
  }

  lemma {:induction false} RunBegan(cfg: Config, s: State, es: seq<Event>) returns (b: nat)
    requires Initial(cfg, s) && Legal(cfg, s, es) && After(cfg, s, es).put.Some?
    ensures BeganAt(After(cfg, s, es), es, b)
    decreases |es|
  {
    hide Step, Enabled, Legal, Inv;
    var n := |es| - 1;
    Unsnoc(cfg, s, es);
    var r := After(cfg, s, es[..n]);
    assert es[..n] + [es[n]] == es;
    InitialInv(cfg, s);
    RunInv(cfg, s, es[..n]);
    if r.put.None? {
      b := n;
      FirstBegan(cfg, r, es[n], es[..n]);
    } else {
      b := RunBegan(cfg, s, es[..n]);
      StepBegan(cfg, r, es[n], es[..n], b);
    }
  }

  lemma FirstBegan(cfg: Config, s: State, e: Event, es: seq<Event>)
    requires Enabled(cfg, s, e) && s.put.None? && Step(cfg, s, e).put.Some?
    ensures BeganAt(Step(cfg, s, e), es + [e], |es|)
  {
  }

  /** A put ends acknowledged exactly when the backups that said they stored it, and the primary
      if its tables have room, are W or more. */
  lemma AcknowledgedIff(cfg: Config, s: State, es: seq<Event>) returns (b: nat)
    requires Initial(cfg, s) && Legal(cfg, s, es) && Enabled(cfg, After(cfg, s, es), PutPrimary)
    ensures b < |es| && es[b].PutBegin? && forall j :: b < j < |es| ==> !es[j].PutBegin? && !(es[j].PutBackup? && es[j].reply.Failed?)
    ensures Replied(es, b) >= cfg.nodes - 1
    ensures Legal(cfg, s, es + [PutPrimary])
    ensures var e := es[b].entry;
            var local := if 29 + cfg.keyLength + |e.value| < cfg.primarySize then 1 else 0;
            var acked := After(cfg, s, es).acked;
            After(cfg, s, es + [PutPrimary]).acked == if StoredReplies(es, b) + local >= cfg.writeQuorum then acked + {e.timestamp} else acked
  {
    hide Legal, After, StoredReplies, Inv;
    b := RunBegan(cfg, s, es);
    Snoc(cfg, s, es, PutPrimary);
    InitialInv(cfg, s);
    RunInv(cfg, s, es);
    PrimaryApart(cfg, After(cfg, s, es));
  }

  lemma PrimaryApart(cfg: Config, s: State)
    requires Inv(cfg, s) && s.put.Some?
    ensures 0 !in s.put.value.stored
  {
  }
}
