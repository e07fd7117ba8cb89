/** Rebalance epochs on the coordinator: an epoch opens when a new table was installed and
    completes when every live member it waits for has acked the table's signature. */
module Epochs {

  datatype Epoch = Epoch(epoch: nat, pending: set<nat>, acked: set<nat>, completed: bool)

  /** The installed and the committed signature, the live members, the current epoch, and the
      acks that came before their epoch started. Zero is no signature. */
  datatype State = State(installed: nat, committed: nat, live: set<nat>, current: Epoch, early: map<nat, set<nat>>)

  datatype AckStatus = Accepted | Early | Stale

  datatype Event =
    | Commit(signature: nat)
    | Install(signature: nat)
    | Start(signature: nat, members: set<nat>)
    | Ack(signature: nat, member: nat)
    | Admit(signature: nat, member: nat)
    | Depart(member: nat)
    | Arrive(member: nat)

  /** Some live member is waited for, and all of those have acked. */
  predicate Gate(live: set<nat>, e: Epoch) {
    e.pending * live != {} && e.pending * live <= e.acked
  }

  /** checkRebalanceCompletionLocked. */
  function Check(live: set<nat>, e: Epoch): Epoch {
    if e.epoch != 0 && !e.completed && Gate(live, e) then e.(completed := true) else e
  }

  predicate Opens(signature: nat, members: set<nat>) {
    signature != 0 && members != {}
  }

  function Buffered(early: map<nat, set<nat>>, signature: nat): set<nat> {
    if signature in early then early[signature] else {}
  }

  function OnStart(s: State, signature: nat, members: set<nat>): State {
    if !Opens(signature, members) then s
    else s.(current := Check(s.live, Epoch(signature, members, Buffered(s.early, signature), false)), early := map[])
  }

  function StatusOf(s: State, signature: nat): AckStatus {
    if s.current.epoch == 0 || s.current.epoch != signature then
      if signature == s.installed || signature == s.committed then Early else Stale
    else Accepted
  }

  function OnAck(s: State, signature: nat, member: nat): State {
    match StatusOf(s, signature)
    case Early => s.(early := s.early[signature := Buffered(s.early, signature) + {member}])
    case Stale => s
    case Accepted =>
      if s.current.completed || member in s.current.acked then s
      else
        var e := s.current.(acked := s.current.acked + {member});
        s.(current := if member in e.pending then Check(s.live, e) else e)
  }

  function OnAdmit(s: State, signature: nat, member: nat): State {
    if s.current.epoch != signature || s.current.completed then s
    else s.(current := Check(s.live, s.current.(pending := s.current.pending + {member})))
  }

  function Step(s: State, e: Event): State {
    match e
    case Commit(signature) => s.(committed := signature)
    case Install(signature) => s.(installed := signature)
    case Start(signature, members) => OnStart(s, signature, members)
    case Ack(signature, member) => OnAck(s, signature, member)
    case Admit(signature, member) => OnAdmit(s, signature, member)
    case Depart(member) => s.(live := s.live - {member})
    case Arrive(member) => s.(live := s.live + {member})
  }

  /** The state before event `k`. */
  function At(s: State, es: seq<Event>, k: nat): State
    requires k <= |es|
  {
    if k == 0 then s else Step(At(s, es, k - 1), es[k - 1])
  }

  predicate IsStart(e: Event) {
    e.Start? && e.signature != 0 && e.members != {}
  }

  predicate Fresh(s: State) {
    s.current == Epoch(0, {}, {}, false) && s.early == map[]
  }

  /** Event `k` completed an epoch. */
  predicate Flips(s: State, es: seq<Event>, k: nat)
    requires k < |es|
  {
    At(s, es, k + 1).current.completed && (!At(s, es, k).current.completed || IsStart(es[k]))
  }

  // One flip per epoch

  lemma StepCompleted(s: State, e: Event)
    ensures s.current.completed && !IsStart(e) ==> Step(s, e).current == s.current
    ensures Step(s, e).current.completed && (!s.current.completed || IsStart(e)) ==>
              Gate(Step(s, e).live, Step(s, e).current) && Step(s, e).current.epoch != 0
  {
  }

  lemma {:induction false} CompletedStays(s: State, es: seq<Event>, i: nat, j: nat)
    requires i <= j <= |es| && At(s, es, i).current.completed
    requires forall l :: i <= l < j ==> !IsStart(es[l])
    ensures At(s, es, j).current == At(s, es, i).current
  {
    hide Step, IsStart;
    if i < j {
      CompletedStays(s, es, i, j - 1);
      StepCompleted(At(s, es, j - 1), es[j - 1]);
    }
  }

  /** Between two completions an epoch was started. */
  lemma OneFlipPerEpoch(s: State, es: seq<Event>, i: nat, j: nat)
    requires i < j < |es| && Flips(s, es, i) && Flips(s, es, j)
    ensures exists l :: i < l <= j && IsStart(es[l])
  {
    hide Step;
    if forall l :: i < l <= j ==> !IsStart(es[l]) {
      CompletedStays(s, es, i + 1, j);
    }
  }

  // Acks that count were sent

  /** The last event before `k` that started an epoch, -1 when there is none. */
  function LastStart(es: seq<Event>, k: nat): (l: int)
    requires k <= |es|
    ensures -1 <= l < k
    ensures l >= 0 ==> IsStart(es[l])
  {
    if k == 0 then -1 else if IsStart(es[k - 1]) then k - 1 else LastStart(es, k - 1)
  }

  /** The start before that one. */
  function PreviousStart(es: seq<Event>, k: nat): (l: int)
    requires k <= |es|
    ensures -1 <= l < k
  {
    if LastStart(es, k) < 0 then -1 else LastStart(es, LastStart(es, k))
  }

  /** The ack came after event `since` and before event `k`. */
  ghost predicate Acked(es: seq<Event>, since: int, k: nat, signature: nat, member: nat)
    requires k <= |es| && since >= -1
  {
    exists j :: since < j < k && es[j] == Ack(signature, member)
  }

  /** Everyone counted for the epoch sent that ack after the epoch before it started; everyone
      buffered for a later one, after the current one started. */
  ghost predicate Honest(s: State, es: seq<Event>, k: nat)
    requires k <= |es|
  {
    && (forall m :: m in s.current.acked ==> Acked(es, PreviousStart(es, k), k, s.current.epoch, m))
    && (forall g, m :: g in s.early && m in s.early[g] ==> Acked(es, LastStart(es, k), k, g, m))
  }

  lemma AckedLater(es: seq<Event>, since: int, since': int, k: nat, g: nat, m: nat)
    requires k < |es| && -1 <= since' <= since && Acked(es, since, k, g, m)
    ensures Acked(es, since', k + 1, g, m)
  {
    var j :| since < j < k && es[j] == Ack(g, m);
  }

  lemma StepHonest(s: State, es: seq<Event>, k: nat)
    requires k < |es| && Honest(s, es, k)
    ensures Honest(Step(s, es[k]), es, k + 1)
  {
    hide Gate, Acked, LastStart;
    var r := Step(s, es[k]);
    Starts(es, k);
    forall m | m in r.current.acked
      ensures Acked(es, PreviousStart(es, k + 1), k + 1, r.current.epoch, m)
    {
      if IsStart(es[k]) {
        AckedLater(es, LastStart(es, k), PreviousStart(es, k + 1), k, r.current.epoch, m);
      } else if m in s.current.acked {
        AckedLater(es, PreviousStart(es, k), PreviousStart(es, k + 1), k, r.current.epoch, m);
      } else {
        AckedNow(es, PreviousStart(es, k + 1), k, r.current.epoch, m);
      }
    }
    forall g, m | g in r.early && m in r.early[g]
      ensures Acked(es, LastStart(es, k + 1), k + 1, g, m)
    {
      if m in Buffered(s.early, g) {
        AckedLater(es, LastStart(es, k), LastStart(es, k + 1), k, g, m);
      } else {
        AckedNow(es, LastStart(es, k + 1), k, g, m);
      }
    }
  }

  lemma Starts(es: seq<Event>, k: nat)
    requires k < |es|
    ensures IsStart(es[k]) ==> LastStart(es, k + 1) == k && PreviousStart(es, k + 1) == LastStart(es, k)
    ensures !IsStart(es[k]) ==> LastStart(es, k + 1) == LastStart(es, k) && PreviousStart(es, k + 1) == PreviousStart(es, k)
  {
  }

  lemma AckedNow(es: seq<Event>, since: int, k: nat, g: nat, m: nat)
    requires k < |es| && -1 <= since < k && es[k] == Ack(g, m)
    ensures Acked(es, since, k + 1, g, m)
  {
  }

  lemma {:induction false} RunHonest(s: State, es: seq<Event>, k: nat)
    requires k <= |es| && Fresh(s)
    ensures Honest(At(s, es, k), es, k)
  {
    if k > 0 {
      hide Step, Honest;
      RunHonest(s, es, k - 1);
      StepHonest(At(s, es, k - 1), es, k - 1);
    }
  }

  /** An epoch completes only when some live member was waited for and every live member
      waited for had acked the epoch's signature since the epoch before it started: an ack
      of an earlier epoch under the same signature does not count. */
  lemma CompletionSafe(s: State, es: seq<Event>, k: nat)
    requires Fresh(s) && k < |es| && Flips(s, es, k)
    ensures var r := At(s, es, k + 1);
            && r.current.epoch != 0
            && (exists m :: m in r.live && m in r.current.pending)
            && (forall m :: m in r.live && m in r.current.pending ==> Acked(es, PreviousStart(es, k + 1), k + 1, r.current.epoch, m))
  {
    hide Step, Acked, PreviousStart, LastStart;
    StepCompleted(At(s, es, k), es[k]);
    RunHonest(s, es, k + 1);
    var r := At(s, es, k + 1);
    var m :| m in r.current.pending * r.live;
  }

  // Early acks

  lemma {:induction false} EarlyStays(s: State, es: seq<Event>, i: nat, j: nat, g: nat, m: nat)
    requires i <= j <= |es| && m in Buffered(At(s, es, i).early, g)
    requires forall l :: i <= l < j ==> !IsStart(es[l])
    ensures m in Buffered(At(s, es, j).early, g)
  {
    hide Gate;
    if i < j {
      EarlyStays(s, es, i, j - 1, g, m);
    }
  }

  /** An ack buffered as early is counted by the next epoch that starts, if it is for it. */
  lemma EarlyCounted(s: State, es: seq<Event>, i: nat, j: nat)
    requires i < j < |es| && es[i].Ack? && StatusOf(At(s, es, i), es[i].signature) == Early
    requires IsStart(es[j]) && es[j].signature == es[i].signature
    requires forall l :: i < l < j ==> !IsStart(es[l])
    ensures es[i].member in At(s, es, j + 1).current.acked
    ensures At(s, es, j + 1).current.epoch == es[i].signature
  {
    hide Gate;
    assert es[i].member in Buffered(At(s, es, i + 1).early, es[i].signature);
    EarlyStays(s, es, i + 1, j, es[i].signature, es[i].member);
  }

  /** A member admitted late is waited for, and its recorded ack counts at once. */
  lemma AdmittedGates(s: State, signature: nat, m: nat)
    requires s.current.epoch == signature != 0 && !s.current.completed && m in s.live
    ensures var r := Step(s, Admit(signature, m));
            && m in r.current.pending
            && (m !in s.current.acked ==> !r.current.completed)
            && (s.current.pending * s.live + {m} <= s.current.acked ==> r.current.completed)
  {
    var e := s.current.(pending := s.current.pending + {m});
    assert e.pending * s.live == s.current.pending * s.live + {m};
    assert m in e.pending * s.live;
  }

  // What exactly is counted

  /** An ack for `g` is kept for later: no epoch of `g` is current, and `g` is the signature
      installed or committed. */
  predicate Expected(s: State, g: nat) {
    (s.current.epoch == 0 || s.current.epoch != g) && (g == s.installed || g == s.committed)
  }

  /** Between `since` and `k` the member sent an ack for `g` that was kept for later. */
  ghost predicate SentEarly(s: State, es: seq<Event>, since: int, k: nat, g: nat, m: nat)
    requires k <= |es| && since >= -1
  {
    exists j :: since < j < k && es[j] == Ack(g, m) && Expected(At(s, es, j), g)
  }

  /** The member acked the epoch that was current before event `k`: after the epoch started, or
      early, after the epoch before it started. */
  ghost predicate Counted(s: State, es: seq<Event>, k: nat, m: nat)
    requires k <= |es| && LastStart(es, k) >= 0
  {
    var l, g := LastStart(es, k), es[LastStart(es, k)].signature;
    Acked(es, l, k, g, m) || SentEarly(s, es, PreviousStart(es, k), l, g, m)
  }

  /** The member was listed when the epoch started, or admitted since. */
  ghost predicate WaitedFor(es: seq<Event>, k: nat, m: nat)
    requires k <= |es| && LastStart(es, k) >= 0
  {
    var l := LastStart(es, k);
    m in es[l].members || exists j :: l < j < k && es[j] == Admit(es[l].signature, m)
  }

  ghost predicate ExactEarly(s: State, es: seq<Event>, k: nat)
    requires k <= |es|
  {
    forall g, m :: m in Buffered(At(s, es, k).early, g) <==> SentEarly(s, es, LastStart(es, k), k, g, m)
  }

  /** The epoch was open before the event that led here, or is the one that event started. */
  predicate WasOpen(s: State, es: seq<Event>, k: nat)
    requires k <= |es|
  {
    k > 0 && (!At(s, es, k - 1).current.completed || IsStart(es[k - 1]))
  }

  ghost predicate ExactCurrent(s: State, es: seq<Event>, k: nat)
    requires k <= |es|
  {
    var r, l := At(s, es, k).current, LastStart(es, k);
    if l < 0 then r.epoch == 0 && !r.completed
    else
      && r.epoch == es[l].signature
      && (WasOpen(s, es, k) ==> forall m :: (m in r.acked <==> Counted(s, es, k, m)) && (m in r.pending <==> WaitedFor(es, k, m)))
  }

  lemma SentEarlyStep(s: State, es: seq<Event>, since: int, k: nat, g: nat, m: nat)
    requires k < |es| && -1 <= since < k
    ensures SentEarly(s, es, since, k + 1, g, m) <==> SentEarly(s, es, since, k, g, m) || (es[k] == Ack(g, m) && Expected(At(s, es, k), g))
    ensures !SentEarly(s, es, k, k + 1, g, m)
  {
    hide At, Expected;
    if SentEarly(s, es, since, k + 1, g, m) {
      var j :| since < j < k + 1 && es[j] == Ack(g, m) && Expected(At(s, es, j), g);
    }
  }

  lemma AckedStep(es: seq<Event>, since: int, k: nat, g: nat, m: nat)
    requires k < |es| && -1 <= since < k
    ensures Acked(es, since, k + 1, g, m) <==> Acked(es, since, k, g, m) || es[k] == Ack(g, m)
    ensures !Acked(es, k, k + 1, g, m)
  {
    if Acked(es, since, k + 1, g, m) {
      var j :| since < j < k + 1 && es[j] == Ack(g, m);
    }
  }

  lemma BufferStep(s: State, e: Event, g: nat, m: nat)
    ensures m in Buffered(Step(s, e).early, g) <==> !IsStart(e) && (m in Buffered(s.early, g) || (e == Ack(g, m) && Expected(s, g)))
  {
    hide Gate;
  }

  lemma EarlyStep(s: State, es: seq<Event>, k: nat)
    requires k < |es| && ExactEarly(s, es, k)
    ensures ExactEarly(s, es, k + 1)
  {
    hide Step, SentEarly, Buffered, Expected, LastStart;
    Starts(es, k);
    var r, l, n := At(s, es, k + 1), LastStart(es, k + 1), k + 1;
    forall g, m
      ensures m in Buffered(r.early, g) <==> SentEarly(s, es, l, n, g, m)
    {
      BufferStep(At(s, es, k), es[k], g, m);
      SentEarlyStep(s, es, if IsStart(es[k]) then -1 else LastStart(es, k), k, g, m);
    }
  }

  lemma CurrentStep(s: State, e: Event)
    ensures IsStart(e) ==> var r := Step(s, e).current; r.epoch == e.signature && r.pending == e.members && r.acked == Buffered(s.early, e.signature)
    ensures !IsStart(e) ==> Step(s, e).current.epoch == s.current.epoch
    ensures !IsStart(e) && !s.current.completed && s.current.epoch != 0 ==>
              var r := Step(s, e).current;
              && (forall m :: m in r.acked <==> m in s.current.acked || e == Ack(s.current.epoch, m))
              && (forall m :: m in r.pending <==> m in s.current.pending || e == Admit(s.current.epoch, m))
  {
    hide Gate;
  }

  lemma CountedStep(s: State, es: seq<Event>, k: nat, m: nat)
    requires k < |es| && LastStart(es, k) >= 0 && !IsStart(es[k])
    ensures LastStart(es, k + 1) == LastStart(es, k)
    ensures Counted(s, es, k + 1, m) <==> Counted(s, es, k, m) || es[k] == Ack(es[LastStart(es, k)].signature, m)
    ensures WaitedFor(es, k + 1, m) <==> WaitedFor(es, k, m) || es[k] == Admit(es[LastStart(es, k)].signature, m)
  {
    hide SentEarly, LastStart;
    Starts(es, k);
    AckedStep(es, LastStart(es, k), k, es[LastStart(es, k)].signature, m);
    if WaitedFor(es, k + 1, m) && m !in es[LastStart(es, k)].members {
      var j :| LastStart(es, k) < j < k + 1 && es[j] == Admit(es[LastStart(es, k)].signature, m);
    }
  }

  lemma CountedAtStart(s: State, es: seq<Event>, k: nat, m: nat)
    requires k < |es| && IsStart(es[k])
    ensures LastStart(es, k + 1) == k
    ensures Counted(s, es, k + 1, m) <==> SentEarly(s, es, LastStart(es, k), k, es[k].signature, m)
    ensures WaitedFor(es, k + 1, m) <==> m in es[k].members
  {
    hide SentEarly, LastStart;
    Starts(es, k);
    AckedStep(es, -1, k, es[k].signature, m);
  }

  lemma OpenBefore(s: State, es: seq<Event>, k: nat)
    requires 0 < k <= |es| && !At(s, es, k).current.completed
    ensures WasOpen(s, es, k)
  {
    hide Step;
    StepCompleted(At(s, es, k - 1), es[k - 1]);
  }

  lemma {:induction false} RunExact(s: State, es: seq<Event>, k: nat)
    requires k <= |es| && Fresh(s)
    ensures ExactEarly(s, es, k) && ExactCurrent(s, es, k)
  {
    if k == 0 {
      assert forall g, m :: !SentEarly(s, es, -1, 0, g, m);
    } else {
      RunExact(s, es, k - 1);
      EarlyStep(s, es, k - 1);
      ExactStep(s, es, k - 1);
    }
  }

  lemma ExactStep(s: State, es: seq<Event>, k: nat)
    requires k < |es| && ExactEarly(s, es, k) && ExactCurrent(s, es, k)
    ensures ExactCurrent(s, es, k + 1)
  {
    hide Step, SentEarly, LastStart, Counted, WaitedFor, Buffered;
    var r := At(s, es, k);
    CurrentStep(r, es[k]);
    Starts(es, k);
    if IsStart(es[k]) {
      forall m
        ensures Counted(s, es, k + 1, m) <==> m in Buffered(r.early, es[k].signature)
        ensures WaitedFor(es, k + 1, m) <==> m in es[k].members
      {
        CountedAtStart(s, es, k, m);
      }
    } else if LastStart(es, k) < 0 {
      IdleStep(r, es[k]);
    } else if !r.current.completed {
      OpenBefore(s, es, k);
      forall m
        ensures Counted(s, es, k + 1, m) <==> Counted(s, es, k, m) || es[k] == Ack(r.current.epoch, m)
        ensures WaitedFor(es, k + 1, m) <==> WaitedFor(es, k, m) || es[k] == Admit(r.current.epoch, m)
      {
        CountedStep(s, es, k, m);
      }
    }
  }

  lemma IdleStep(s: State, e: Event)
    requires s.current.epoch == 0 && !s.current.completed && !IsStart(e)
    ensures Step(s, e).current.epoch == 0 && !Step(s, e).current.completed
  {
  }

  /** An ack of an open epoch is recorded. */
  lemma AckRecorded(s: State, es: seq<Event>, k: nat, m: nat)
    requires Fresh(s) && k < |es| && LastStart(es, k) >= 0 && !At(s, es, k).current.completed
    requires es[k] == Ack(es[LastStart(es, k)].signature, m)
    ensures m in At(s, es, k + 1).current.acked && At(s, es, k + 1).current.epoch == es[LastStart(es, k)].signature
  {
    hide Step, SentEarly, LastStart, Counted, WaitedFor;
    RunExact(s, es, k + 1);
    CountedStep(s, es, k, m);
  }

  /** The events after which completion is looked at: a start, a late admission to the epoch,
      and the first ack of a member it waits for. */
  ghost predicate Rechecks(s: State, es: seq<Event>, k: nat)
    requires k < |es| && LastStart(es, k + 1) >= 0
  {
    var g := es[LastStart(es, k + 1)].signature;
    || IsStart(es[k])
    || (es[k].Admit? && es[k].signature == g)
    || (es[k].Ack? && es[k].signature == g && WaitedFor(es, k, es[k].member) && !Counted(s, es, k, es[k].member))
  }

  lemma StepFlips(s: State, e: Event)
    requires IsStart(e) || (s.current.epoch != 0 && !s.current.completed)
    ensures var r := Step(s, e);
            r.current.completed <==>
              && (IsStart(e) || (e.Admit? && e.signature == s.current.epoch)
                  || (e.Ack? && e.signature == s.current.epoch && e.member in s.current.pending && e.member !in s.current.acked))
              && (exists m :: m in r.live && m in r.current.pending)
              && (forall m :: m in r.live && m in r.current.pending ==> m in r.current.acked)
  {
    var r := Step(s, e);
    assert (exists m :: m in r.live && m in r.current.pending) <==> r.current.pending * r.live != {} by {
      if m :| m in r.live && m in r.current.pending {
        assert m in r.current.pending * r.live;
      }
    }
  }

  /** Exactly when an event completes the epoch: it is looked at, some live member is waited for,
      and every live member waited for has acked this epoch, after its start or early. */
  lemma CompletesIff(s: State, es: seq<Event>, k: nat)
    requires Fresh(s) && k < |es| && LastStart(es, k + 1) >= 0 && (IsStart(es[k]) || !At(s, es, k).current.completed)
    ensures var r := At(s, es, k + 1);
            r.current.completed <==>
              && Rechecks(s, es, k)
              && (exists m :: m in r.live && WaitedFor(es, k + 1, m))
              && (forall m :: m in r.live && WaitedFor(es, k + 1, m) ==> Counted(s, es, k + 1, m))
  {
    hide Step, SentEarly, LastStart, Counted, WaitedFor;
    RunExact(s, es, k);
    RunExact(s, es, k + 1);
    Starts(es, k);
    if !IsStart(es[k]) {
      OpenBefore(s, es, k);
    }
    StepFlips(At(s, es, k), es[k]);
  }

  /** The member was live at first, or came with event `j`, and has not left since. */
  ghost predicate PresentSince(s: State, es: seq<Event>, j: int, k: nat, m: nat)
    requires -1 <= j < k <= |es| || (j == -1 && k == 0)
  {
    (if j < 0 then m in s.live else es[j] == Arrive(m)) && forall l :: j < l < k ==> es[l] != Depart(m)
  }

  lemma {:induction false} LiveIs(s: State, es: seq<Event>, k: nat, m: nat)
    requires k <= |es|
    ensures m in At(s, es, k).live <==> exists j :: -1 <= j && (j < k || j == -1) && PresentSince(s, es, j, k, m)
  {
    if k == 0 {
      assert m in s.live <==> PresentSince(s, es, -1, 0, m);
    } else {
      var n := k - 1;
      LiveIs(s, es, n, m);
      if es[n] != Depart(m) {
        if j :| -1 <= j && (j < n || j == -1) && PresentSince(s, es, j, n, m) {
          assert PresentSince(s, es, j, k, m);
        }
      }
      if es[k - 1] == Arrive(m) {
        assert PresentSince(s, es, k - 1, k, m);
      } else if j :| -1 <= j && (j < k || j == -1) && PresentSince(s, es, j, k, m) {
        assert PresentSince(s, es, j, k - 1, m);
      }
    }
  }

  /** The signatures an early ack is compared with are the last ones installed and committed. */
  lemma {:induction false} SignaturesAre(s: State, es: seq<Event>, i: nat, k: nat)
    requires i < k <= |es|
    ensures es[i].Install? && (forall j :: i < j < k ==> !es[j].Install?) ==> At(s, es, k).installed == es[i].signature
    ensures es[i].Commit? && (forall j :: i < j < k ==> !es[j].Commit?) ==> At(s, es, k).committed == es[i].signature
  {
    if i < k - 1 {
      SignaturesAre(s, es, i, k - 1);
    }
  }

  // In place

  class RebalanceState {
    var epoch: nat
    var pending: set<nat>
    var acked: set<nat>
    var completed: bool
    var earlyAcks: map<nat, set<nat>>

    function Current(): Epoch
      reads this
    {
      Epoch(epoch, pending, acked, completed)
    }

    /** With the signatures and the live members as the routing table has them. */
    function View(installed: nat, committed: nat, live: set<nat>): State
      reads this
    {
      State(installed, committed, live, Current(), earlyAcks)
    }

    constructor ()
      ensures Current() == Epoch(0, {}, {}, false) && earlyAcks == map[]
    {
      epoch, pending, acked, completed, earlyAcks := 0, {}, {}, false, map[];
    }

    method Count(live: set<nat>) returns (livePending: nat, liveAcked: nat)
      ensures livePending == |pending * live| && liveAcked == |pending * live * acked|
    {
      hide Waited, Answered;
      livePending, liveAcked := 0, 0;
      var left := live;
      CountedNone(pending, acked, live);
      while left != {}
        invariant left <= live
        invariant livePending == Waited(pending, live, left) && liveAcked == Answered(pending, acked, live, left)
        decreases left
      {
        var id :| id in left;
        CountedOne(pending, acked, live, left, id);
        if id in pending {
          livePending := livePending + 1;
          if id in acked {
            liveAcked := liveAcked + 1;
          }
        }
        left := left - {id};
      }
      CountedAll(pending, acked, live);
    }

    method CheckCompletion(live: set<nat>)
      modifies this`completed
      ensures Current() == Check(live, old(Current()))
    {
      if epoch == 0 || completed {
        return;
      }
      var livePending, liveAcked := Count(live);
      AllIfCounted(pending * live, acked);
      if livePending > 0 && liveAcked == livePending {
        completed := true;
      }
    }

    method StartEpoch(signature: nat, memberIDs: seq<nat>, ghost installed: nat, ghost committed: nat, live: set<nat>)
      modifies this
      ensures View(installed, committed, live) == OnStart(old(View(installed, committed, live)), signature, set id | id in memberIDs)
    {
      if signature == 0 {
        return;
      }
      var waited: set<nat> := {};
      var i := 0;
      while i < |memberIDs|
        invariant i <= |memberIDs| && waited == set id | id in memberIDs[..i]
      {
        waited := waited + {memberIDs[i]};
        i := i + 1;
      }
      assert memberIDs[..i] == memberIDs;
      if waited == {} {
        return;
      }
      epoch, pending, completed := signature, waited, false;
      acked := Buffered(earlyAcks, signature);
      earlyAcks := map[];
      CheckCompletion(live);
    }

    method HandleAck(signature: nat, member: nat, installed: nat, committed: nat, live: set<nat>) returns (status: AckStatus)
      modifies this
      ensures View(installed, committed, live) == OnAck(old(View(installed, committed, live)), signature, member)
      ensures status == StatusOf(old(View(installed, committed, live)), signature)
    {
      if epoch == 0 || epoch != signature {
        if signature == installed || signature == committed {
          earlyAcks := earlyAcks[signature := Buffered(earlyAcks, signature) + {member}];
          return Early;
        }
        return Stale;
      }
      if completed || member in acked {
        return Accepted;
      }
      acked := acked + {member};
      if member in pending {
        CheckCompletion(live);
      }
      status := Accepted;
    }

    method AdmitLate(signature: nat, member: nat, ghost installed: nat, ghost committed: nat, live: set<nat>)
      modifies this
      ensures View(installed, committed, live) == OnAdmit(old(View(installed, committed, live)), signature, member)
    {
      if epoch != signature || completed {
        return;
      }
      pending := pending + {member};
      CheckCompletion(live);
    }
  }

  /** The members of `live` outside `left` that are waited for, and those that acked. */
  ghost function Waited(pending: set<nat>, live: set<nat>, left: set<nat>): nat {
    |pending * (live - left)|
  }

  ghost function Answered(pending: set<nat>, acked: set<nat>, live: set<nat>, left: set<nat>): nat {
    |pending * (live - left) * acked|
  }

  lemma CountedNone(pending: set<nat>, acked: set<nat>, live: set<nat>)
    ensures Waited(pending, live, live) == 0 && Answered(pending, acked, live, live) == 0
  {
    assert pending * (live - live) == {} && {} * acked == {};
  }

  lemma CountedAll(pending: set<nat>, acked: set<nat>, live: set<nat>)
    ensures Waited(pending, live, {}) == |pending * live| && Answered(pending, acked, live, {}) == |pending * live * acked|
  {
    assert live - {} == live;
  }

  lemma CountedOne(pending: set<nat>, acked: set<nat>, live: set<nat>, left: set<nat>, id: nat)
    requires id in left && left <= live
    ensures Waited(pending, live, left - {id}) == Waited(pending, live, left) + if id in pending then 1 else 0
    ensures Answered(pending, acked, live, left - {id}) == Answered(pending, acked, live, left) + if id in pending && id in acked then 1 else 0
  {
    var seen := live - left;
    assert live - (left - {id}) == seen + {id};
    if id in pending {
      assert pending * (seen + {id}) == pending * seen + {id};
    } else {
      assert pending * (seen + {id}) == pending * seen;
    }
    if id in pending && id in acked {
      assert pending * (seen + {id}) * acked == pending * seen * acked + {id};
    } else {
      assert pending * (seen + {id}) * acked == pending * seen * acked;
    }
  }

  lemma AllIfCounted(a: set<nat>, b: set<nat>)
    ensures |a * b| == |a| <==> a <= b
    ensures |a| > 0 <==> a != {}
  {
    assert a == a * b + (a - b);
    assert |a| == |a * b| + |a - b|;
    if a <= b {
      assert a - b == {};
    } else {
      assert a - b != {};
    }
  }
}
