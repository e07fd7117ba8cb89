/** Stale reads: they exist exactly when R + W is at most the number of nodes and some record
    fits the backups' tables but not the primary's. */
module QuorumTight {
  import opened Codec
  import opened Versions
  import opened Quorum

  // The input: a short record, then one just longer than the primary's tables

  const OLD := Copy(1, [])

  function NewValue(cfg: Config): Copy
    requires METADATA_LENGTH + cfg.keyLength < cfg.primarySize
  {
    Copy(2, seq(cfg.primarySize + 1 - METADATA_LENGTH - cfg.keyLength, i => 0))
  }

  /** The key is one the engine stores, the primary has room for a record of it, and the
      quorums are configured. */
  predicate Usable(cfg: Config) {
    && cfg.nodes > 0 && cfg.readQuorum >= 1 && cfg.writeQuorum >= 1
    && cfg.keyLength < MAX_KEY_LENGTH && METADATA_LENGTH + cfg.keyLength < cfg.primarySize
  }

  predicate Exposed(cfg: Config) {
    Usable(cfg) && cfg.readQuorum + cfg.writeQuorum <= cfg.nodes && cfg.backupSize > cfg.primarySize + 1
  }

  lemma {:induction false} Concat(cfg: Config, s: State, es: seq<Event>, fs: seq<Event>)
    requires Legal(cfg, s, es) && Legal(cfg, After(cfg, s, es), fs)
    ensures Legal(cfg, s, es + fs) && After(cfg, s, es + fs) == After(cfg, After(cfg, s, es), fs)
    decreases |es|
  {
    hide Step, Enabled;
    if es == [] {
      assert es + fs == fs;
    } else {
      assert (es + fs)[0] == es[0] && (es + fs)[1..] == es[1..] + fs;
      Concat(cfg, Step(cfg, s, es[0]), es[1..], fs);
    }
  }

  /** Backups up to `upTo` store the put in flight; the others are skipped, as members that
      have left are. */
  function Replies(cfg: Config, from: nat, upTo: nat): seq<Event>
    decreases cfg.nodes - from
  {
    if from >= cfg.nodes then []
    else [PutBackup(if from <= upTo then Stored else Skipped)] + Replies(cfg, from + 1, upTo)
  }

  /** The copies when nodes `from` to `upTo` have stored `entry`. */
  ghost predicate Wrote(before: seq<Option<Copy>>, after: seq<Option<Copy>>, from: nat, upTo: nat, entry: Copy) {
    |before| == |after|
    && forall n :: 0 <= n < |before| ==> after[n] == if from <= n <= upTo then Some(entry) else before[n]
  }

  lemma {:induction false} RepliesRun(cfg: Config, s: State, upTo: nat)
    requires cfg.keyLength < MAX_KEY_LENGTH && |s.copies| == cfg.nodes && s.put.Some? && 1 <= s.put.value.next <= cfg.nodes
    requires upTo < cfg.nodes && RecordSize(cfg, s.put.value.entry) < cfg.backupSize
    requires forall n :: n in s.put.value.stored ==> n < s.put.value.next
    ensures Legal(cfg, s, Replies(cfg, s.put.value.next, upTo))
    ensures var p := s.put.value;
            var r := After(cfg, s, Replies(cfg, p.next, upTo));
            && r == s.(copies := r.copies, put := r.put)
            && r.put.Some? && r.put.value.next == cfg.nodes && r.put.value.entry == p.entry
            && Wrote(s.copies, r.copies, p.next, upTo, p.entry)
            && |r.put.value.stored| == |p.stored| + (if p.next <= upTo then upTo - p.next + 1 else 0)
            && 0 !in r.put.value.stored - p.stored
    decreases cfg.nodes - s.put.value.next
  {
    var p := s.put.value;
    if p.next < cfg.nodes {
      var e := PutBackup(if p.next <= upTo then Stored else Skipped);
      var s1 := Step(cfg, s, e);
      RepliesRun(cfg, s1, upTo);
      var es := Replies(cfg, p.next, upTo);
      assert es[0] == e && es[1..] == Replies(cfg, p.next + 1, upTo);
    }
  }

  /** One whole put that the backups up to `upTo` store. */
  function PutEvents(cfg: Config, entry: Copy, upTo: nat): seq<Event> {
    [PutBegin(entry)] + Replies(cfg, 1, upTo) + [PutPrimary]
  }

  lemma PutRun(cfg: Config, s: State, entry: Copy, upTo: nat)
    requires cfg.keyLength < MAX_KEY_LENGTH && |s.copies| == cfg.nodes > 0 && s.put.None? && s.clock <= entry.timestamp
    requires upTo < cfg.nodes && RecordSize(cfg, entry) < cfg.backupSize && RecordSize(cfg, entry) != cfg.primarySize
    requires upTo + (if Accepts(cfg, 0, entry) then 1 else 0) >= cfg.writeQuorum
    ensures Legal(cfg, s, PutEvents(cfg, entry, upTo))
    ensures var r := After(cfg, s, PutEvents(cfg, entry, upTo));
            && r == s.(copies := r.copies, clock := entry.timestamp, acked := s.acked + {entry.timestamp}, kept := r.kept)
            && Wrote(s.copies, r.copies, if Accepts(cfg, 0, entry) then 0 else 1, upTo, entry)
  {
    var begin, finish := [PutBegin(entry)], [PutPrimary];
    var s1 := Step(cfg, s, PutBegin(entry));
    One(cfg, s, PutBegin(entry));
    RepliesRun(cfg, s1, upTo);
    var es := Replies(cfg, 1, upTo);
    var s2 := After(cfg, s1, es);
    One(cfg, s2, PutPrimary);
    Concat(cfg, s, begin, es);
    Concat(cfg, s, begin + es, finish);
  }

  lemma One(cfg: Config, s: State, e: Event)
    requires Enabled(cfg, s, e)
    ensures Legal(cfg, s, [e]) && After(cfg, s, [e]) == Step(cfg, s, e)
  {
    assert [e][1..] == [];
    assert After(cfg, Step(cfg, s, e), []) == Step(cfg, s, e);
  }

  /** Answers from the nodes `from` up to `last`, after the primary's. */
  function Answers(id: nat, from: nat, last: nat): seq<Event>
    decreases last - from
  {
    if from >= last then [] else [GetAnswer(id, from)] + Answers(id, from + 1, last)
  }

  function OldAnswers(from: nat, last: nat): seq<Version>
    decreases last - from
  {
    if from >= last then [] else [Version(from, Some(OLD))] + OldAnswers(from + 1, last)
  }

  lemma Prepend(cfg: Config, s: State, e: Event, es: seq<Event>)
    requires Enabled(cfg, s, e) && Legal(cfg, Step(cfg, s, e), es)
    ensures Legal(cfg, s, [e] + es) && After(cfg, s, [e] + es) == After(cfg, Step(cfg, s, e), es)
  {
    hide Step, Enabled;
    assert ([e] + es)[1..] == es;
  }

  lemma AnswerStep(cfg: Config, s: State, id: nat, node: nat)
    requires cfg.keyLength < MAX_KEY_LENGTH && |s.copies| == cfg.nodes && id in s.gets && 0 < node < cfg.nodes
    requires s.gets[id].versions != [] && s.copies[node] == Some(OLD) && !Answered(s.gets[id], node)
    ensures Enabled(cfg, s, GetAnswer(id, node))
    ensures var r := Step(cfg, s, GetAnswer(id, node));
            && r.copies == s.copies && id in r.gets && r.gets[id].versions == s.gets[id].versions + [Version(node, Some(OLD))]
            && forall n :: n != node && !Answered(s.gets[id], n) ==> !Answered(r.gets[id], n)
  {
  }

  lemma {:induction false} AnswersRun(cfg: Config, s: State, id: nat, from: nat, last: nat)
    requires cfg.keyLength < MAX_KEY_LENGTH && |s.copies| == cfg.nodes > 0 && id in s.gets && 0 < from <= last <= cfg.nodes
    requires s.gets[id].versions != []
    requires forall n :: from <= n < last ==> s.copies[n] == Some(OLD) && !Answered(s.gets[id], n)
    ensures Legal(cfg, s, Answers(id, from, last))
    ensures var r := After(cfg, s, Answers(id, from, last));
            id in r.gets && r.gets[id].versions == s.gets[id].versions + OldAnswers(from, last)
    decreases last - from
  {
    hide Step, Enabled, Answered;
    if from < last {
      AnswerStep(cfg, s, id, from);
      var s1 := Step(cfg, s, GetAnswer(id, from));
      AnswersRun(cfg, s1, id, from + 1, last);
      Prepend(cfg, s, GetAnswer(id, from), Answers(id, from + 1, last));
      assert s.gets[id].versions + [Version(from, Some(OLD))] + OldAnswers(from + 1, last)
          == s.gets[id].versions + OldAnswers(from, last);
    } else {
      assert s.gets[id].versions + [] == s.gets[id].versions;
    }
  }

  lemma {:induction false} AnswersOnly(id: nat, from: nat, last: nat)
    ensures forall i :: 0 <= i < |Answers(id, from, last)| ==> Answers(id, from, last)[i].GetAnswer?
    decreases last - from
  {
    if from < last {
      AnswersOnly(id, from + 1, last);
    }
  }

  lemma {:induction false} OldAnswersOld(from: nat, last: nat)
    requires from <= last
    ensures |OldAnswers(from, last)| == last - from
    ensures forall i :: 0 <= i < last - from ==> OldAnswers(from, last)[i].entry == Some(OLD)
    decreases last - from
  {
    if from < last {
      OldAnswersOld(from + 1, last);
    }
  }

  function Start(cfg: Config): State {
    State(seq(cfg.nodes, i => None), None, 0, {}, {}, map[])
  }

  function Before(cfg: Config): seq<Event>
    requires Exposed(cfg)
  {
    PutEvents(cfg, OLD, cfg.nodes - 1) + PutEvents(cfg, NewValue(cfg), cfg.writeQuorum)
  }

  function Between(cfg: Config): seq<Event> {
    [GetAnswer(0, 0)] + Answers(0, cfg.writeQuorum + 1, cfg.writeQuorum + cfg.readQuorum)
  }

  lemma InputSizes(cfg: Config)
    requires Exposed(cfg)
    ensures Accepts(cfg, 0, OLD) && RecordSize(cfg, OLD) < cfg.backupSize && RecordSize(cfg, OLD) != cfg.primarySize
    ensures !Accepts(cfg, 0, NewValue(cfg)) && RecordSize(cfg, NewValue(cfg)) == cfg.primarySize + 1 < cfg.backupSize
  {
  }

  /** After both puts the first W backups hold the new record, everyone else the old one. */
  lemma BeforeRun(cfg: Config)
    requires Exposed(cfg)
    ensures Legal(cfg, Start(cfg), Before(cfg))
    ensures var s := After(cfg, Start(cfg), Before(cfg));
            && NewValue(cfg).timestamp in s.acked && s.gets == map[] && |s.copies| == cfg.nodes
            && (forall n :: 0 <= n < cfg.nodes ==> s.copies[n] == if 1 <= n <= cfg.writeQuorum then Some(NewValue(cfg)) else Some(OLD))
  {
    hide Enabled, After, Legal, Step, PutEvents;
    InputSizes(cfg);
    var s, new_ := Start(cfg), NewValue(cfg);
    PutRun(cfg, s, OLD, cfg.nodes - 1);
    var s1 := After(cfg, s, PutEvents(cfg, OLD, cfg.nodes - 1));
    PutRun(cfg, s1, new_, cfg.writeQuorum);
    Concat(cfg, s, PutEvents(cfg, OLD, cfg.nodes - 1), PutEvents(cfg, new_, cfg.writeQuorum));
  }

  lemma OpenGet(cfg: Config, s: State)
    requires cfg.keyLength < MAX_KEY_LENGTH && |s.copies| == cfg.nodes > 0 && s.gets == map[] && s.copies[0] == Some(OLD)
    ensures Enabled(cfg, s, GetBegin(0))
    ensures var r := Step(cfg, s, GetBegin(0));
            && Legal(cfg, r, [GetAnswer(0, 0)])
            && var r1 := After(cfg, r, [GetAnswer(0, 0)]);
               r1.copies == s.copies && 0 in r1.gets && r1.gets[0].versions == [Version(0, Some(OLD))]
  {
    One(cfg, Step(cfg, s, GetBegin(0)), GetAnswer(0, 0));
  }

  /** The run, for every exposed configuration. */
  lemma ExposedIsStale(cfg: Config)
    requires Exposed(cfg)
    ensures ReadRun(cfg, Start(cfg), Before(cfg), 0, Between(cfg))
    ensures NewValue(cfg).timestamp in After(cfg, Start(cfg), Before(cfg)).acked
    ensures Returned(cfg, Start(cfg), Before(cfg), 0, Between(cfg)) == Found(OLD)
  {
    hide Enabled, After, Legal, Step, ResultOf, Before;
    BeforeRun(cfg);
    var s2, w := After(cfg, Start(cfg), Before(cfg)), cfg.writeQuorum;
    OpenGet(cfg, s2);
    var s3 := Step(cfg, s2, GetBegin(0));
    var s4 := After(cfg, s3, [GetAnswer(0, 0)]);
    AnswersRun(cfg, s4, 0, w + 1, w + cfg.readQuorum);
    Concat(cfg, s3, [GetAnswer(0, 0)], Answers(0, w + 1, w + cfg.readQuorum));
    AnswersOnly(0, w + 1, w + cfg.readQuorum);
    OldAnswersOld(w + 1, w + cfg.readQuorum);
    OldResult(cfg, [Version(0, Some(OLD))], OldAnswers(w + 1, w + cfg.readQuorum));
  }

  lemma OldResult(cfg: Config, a: seq<Version>, b: seq<Version>)
    requires |a| == 1 && |a| + |b| == cfg.readQuorum
    requires forall i :: 0 <= i < |a| ==> a[i].entry == Some(OLD)
    requires forall i :: 0 <= i < |b| ==> b[i].entry == Some(OLD)
    ensures ResultOf(cfg, a + b) == Found(OLD)
  {
    var vs := a + b;
    AllThere(vs);
    PresentSize(vs);
    WinnerIsNewest(vs);
    var w := SortStable(Present(vs))[0];
    var i :| 0 <= i < |vs| && vs[i] == w;
  }

  lemma {:induction false} AllThere(vs: seq<Version>)
    requires AllPresent(vs)
    ensures Present(vs) == vs
  {
    if vs != [] {
      AllThere(vs[1..]);
      assert vs == [vs[0]] + vs[1..];
    }
  }

  /** No read returns anything older than a put acknowledged before it began. */
  ghost predicate NeverStale(cfg: Config) {
    forall s, before, id, between, t :: ReadRun(cfg, s, before, id, between) && t in After(cfg, s, before).acked ==>
      AtLeastAsNew(Returned(cfg, s, before, id, between), t)
  }

  /** For every usable configuration reads are never stale if and only if R + W exceeds the
      nodes or no record is refused by the primary and stored by the backups. */
  lemma NeverStaleIff(cfg: Config)
    requires Usable(cfg)
    ensures NeverStale(cfg) <==> cfg.readQuorum + cfg.writeQuorum > cfg.nodes || cfg.backupSize <= cfg.primarySize + 1
  {
    hide Returned, After, Legal, Step, Enabled, Before, Between;
    if Exposed(cfg) {
      ExposedIsStale(cfg);
      assert !AtLeastAsNew(Found(OLD), NewValue(cfg).timestamp);
    } else {
      forall s, before, id, between, t | ReadRun(cfg, s, before, id, between) && t in After(cfg, s, before).acked
        ensures AtLeastAsNew(Returned(cfg, s, before, id, between), t)
      {
        if cfg.readQuorum + cfg.writeQuorum > cfg.nodes {
          QuorumReads(cfg, s, before, id, between, t);
        } else {
          UniformReads(cfg, s, before, id, between, t);
        }
      }
    }
  }
}
