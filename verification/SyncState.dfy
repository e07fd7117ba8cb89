/** Which partitions a node still waits to receive before it acks a rebalance. */
module SyncState {
  import opened Codec

  /** Times and durations are nanoseconds. */
  const MILLISECOND: int := 1_000_000

  datatype Sync = Sync(pending: map<nat, int>, receivedAt: map<nat, int>, escape: int, done: bool, timer: Option<int>)

  // Values

  predicate Expires(first: int, escape: int, now: int) {
    escape > 0 && now - first >= escape
  }

  /** The tracked partitions that still count. */
  function Unexpired(s: Sync, now: int): set<nat> {
    set p | p in s.pending && !Expires(s.pending[p], s.escape, now)
  }

  /** The smallest first-seen time among `ps`. */
  predicate IsEarliest(s: Sync, ps: set<nat>, first: int) {
    && (exists p :: p in ps && p in s.pending && s.pending[p] == first)
    && (forall p :: p in ps && p in s.pending ==> first <= s.pending[p])
  }

  /** refreshLocked: done when nothing counts; otherwise the timer is set for the earliest
      deadline, a millisecond away at least. */
  ghost predicate Refreshed(s: Sync, now: int, r: Sync) {
    if Unexpired(s, now) == {} then r == s.(done := true, timer := None)
    else if s.escape <= 0 then r == s
    else
      exists first :: IsEarliest(s, Unexpired(s, now), first)
        && r == s.(timer := Some(now + if first + s.escape - now < MILLISECOND then MILLISECOND else first + s.escape - now))
  }

  /** Delivered while the table was being installed. */
  predicate Delivered(receivedAt: map<nat, int>, p: nat, scannedAt: int) {
    p in receivedAt && receivedAt[p] > scannedAt
  }

  function Tracked(pending: map<nat, int>, receivedAt: map<nat, int>, ids: seq<nat>, scannedAt: int, now: int): map<nat, int> {
    map p | p in ids && !Delivered(receivedAt, p, scannedAt) :: if p in pending then pending[p] else now
  }

  function Rebuilt(s: Sync, ids: seq<nat>, escape: int, scannedAt: int, now: int): Sync {
    s.(pending := Tracked(s.pending, s.receivedAt, ids, scannedAt, now), receivedAt := map[], escape := escape, done := false)
  }

  datatype Event =
    | Reconcile(ids: seq<nat>, escape: int, scannedAt: int, now: int)
    | MarkReceived(id: nat, now: int)
    | Fire(now: int)
    | Poll(now: int)

  /** `r` can follow `s`. Polling is PendingEmpty or IsDone. */
  ghost predicate Next(s: Sync, e: Event, r: Sync) {
    match e
    case Reconcile(ids, escape, scannedAt, now) => Refreshed(Rebuilt(s, ids, escape, scannedAt, now), now, r)
    case MarkReceived(id, now) =>
      Refreshed(s.(pending := s.pending - {id}, receivedAt := s.receivedAt[id := now]), now, r)
    case Fire(now) => Refreshed(s, now, r)
    case Poll(now) => r == if Unexpired(s, now) == {} then s.(done := true) else s
  }

  ghost predicate Run(ss: seq<Sync>, es: seq<Event>) {
    |ss| == |es| + 1 && forall i :: 0 <= i < |es| ==> Next(ss[i], es[i], ss[i + 1])
  }

  predicate Initial(s: Sync) {
    s == Sync(map[], map[], 0, false, None)
  }

  // Escape clocks

  /** A tracked partition has no mark: it received nothing since it was tracked. */
  predicate Unmarked(s: Sync) {
    forall p :: p in s.pending ==> p !in s.receivedAt
  }

  lemma NextUnmarked(s: Sync, e: Event, r: Sync)
    requires Next(s, e, r) && Unmarked(s)
    ensures Unmarked(r)
  {
  }

  lemma {:induction false} RunUnmarked(ss: seq<Sync>, es: seq<Event>, k: nat)
    requires Run(ss, es) && Initial(ss[0]) && k <= |es|
    ensures Unmarked(ss[k])
  {
    hide Next;
    if k > 0 {
      RunUnmarked(ss, es, k - 1);
      NextUnmarked(ss[k - 1], es[k - 1], ss[k]);
    }
  }

  /** The event leaves `p` tracked: a Reconcile lists it, and it is not received. */
  predicate Keeps(e: Event, p: nat) {
    && (e.Reconcile? ==> p in e.ids)
    && (e.MarkReceived? ==> e.id != p)
  }

  lemma ClockStep(s: Sync, e: Event, r: Sync, p: nat)
    requires Next(s, e, r) && Unmarked(s) && p in s.pending && Keeps(e, p)
    ensures p in r.pending && r.pending[p] == s.pending[p]
  {
  }

  /** The escape clock of a partition listed in every Reconcile and never received does not
      restart, however many Reconciles there are. */
  lemma {:induction false} ClockNeverRestarts(ss: seq<Sync>, es: seq<Event>, i: nat, j: nat, p: nat)
    requires Run(ss, es) && Initial(ss[0]) && i <= j <= |es| && p in ss[i].pending
    requires forall k :: i <= k < j ==> Keeps(es[k], p)
    ensures p in ss[j].pending && ss[j].pending[p] == ss[i].pending[p]
  {
    hide Next, Keeps;
    if i < j {
      ClockNeverRestarts(ss, es, i, j - 1, p);
      RunUnmarked(ss, es, j - 1);
      ClockStep(ss[j - 1], es[j - 1], ss[j], p);
    }
  }

  /** So it stops counting once its original deadline has passed. */
  lemma ChurnCannotStarve(ss: seq<Sync>, es: seq<Event>, i: nat, j: nat, p: nat, now: int)
    requires Run(ss, es) && Initial(ss[0]) && i <= j <= |es| && p in ss[i].pending
    requires forall k :: i <= k < j ==> Keeps(es[k], p)
    ensures p in Unexpired(ss[j], now) <==> ss[j].escape <= 0 || now < ss[i].pending[p] + ss[j].escape
  {
    hide Run, Keeps;
    ClockNeverRestarts(ss, es, i, j, p);
  }

  // Done stays

  /** The last moment anything was looked at that counts for `done`. */
  predicate DoneSince(s: Sync, since: int) {
    s.done ==> forall p :: p in s.pending ==> Expires(s.pending[p], s.escape, since)
  }

  lemma NextDone(s: Sync, e: Event, r: Sync, since: int)
    requires Next(s, e, r) && DoneSince(s, since)
    ensures DoneSince(r, if since >= e.now then since else e.now)
    ensures s.done && !e.Reconcile? ==> r.done
    ensures !s.done && r.done ==> Unexpired(r, e.now) == {}
    ensures e.Reconcile? && r.done ==> Unexpired(r, e.now) == {}
  {
    if r.done && Unexpired(r, e.now) == {} {
      NothingCounts(r, e.now);
    }
  }

  lemma NothingCounts(s: Sync, now: int)
    requires Unexpired(s, now) == {}
    ensures forall p :: p in s.pending ==> Expires(s.pending[p], s.escape, now)
  {
    forall p | p in s.pending
      ensures Expires(s.pending[p], s.escape, now)
    {
      assert p !in Unexpired(s, now);
    }
  }

  /** The latest time among the events before `k`. */
  function Latest(es: seq<Event>, k: nat, start: int): int
    requires k <= |es|
  {
    if k == 0 then start else
      var t := Latest(es, k - 1, start);
      if t >= es[k - 1].now then t else es[k - 1].now
  }

  lemma {:induction false} RunDone(ss: seq<Sync>, es: seq<Event>, k: nat, start: int)
    requires Run(ss, es) && Initial(ss[0]) && k <= |es|
    ensures DoneSince(ss[k], Latest(es, k, start))
  {
    hide Next, Expires;
    if k > 0 {
      RunDone(ss, es, k - 1, start);
      NextDone(ss[k - 1], es[k - 1], ss[k], Latest(es, k - 1, start));
    }
  }

  /** While done, nothing counts at any time from the latest event on. */
  lemma DoneMeansNothingCounts(ss: seq<Sync>, es: seq<Event>, k: nat, start: int, now: int)
    requires Run(ss, es) && Initial(ss[0]) && k <= |es| && ss[k].done && now >= Latest(es, k, start)
    ensures Unexpired(ss[k], now) == {}
  {
    hide Run;
    RunDone(ss, es, k, start);
  }

  /** Done is lost only by a Reconcile. */
  lemma {:induction false} DoneStays(ss: seq<Sync>, es: seq<Event>, i: nat, j: nat)
    requires Run(ss, es) && i <= j <= |es| && ss[i].done
    requires forall k :: i <= k < j ==> !es[k].Reconcile?
    ensures ss[j].done
  {
    hide Next;
    if i < j {
      DoneStays(ss, es, i, j - 1);
      StepDone(ss[j - 1], es[j - 1], ss[j]);
    }
  }

  lemma StepDone(s: Sync, e: Event, r: Sync)
    requires Next(s, e, r) && s.done && !e.Reconcile?
    ensures r.done
  {
  }

  // The backstop timer

  /** A timer that fires at or after the time it was set for leaves fewer partitions that
      count: without any further call done is reached in at most as many firings as there
      are partitions. */
  lemma TimerProgresses(s: Sync, now: int, r: Sync, later: int)
    requires Refreshed(s, now, r) && s.escape > 0 && Unexpired(s, now) != {}
    requires r.timer.Some? && later >= r.timer.value
    ensures Unexpired(r, later) < Unexpired(s, now)
  {
    var first :| IsEarliest(s, Unexpired(s, now), first)
      && r == s.(timer := Some(now + if first + s.escape - now < MILLISECOND then MILLISECOND else first + s.escape - now));
    var p :| p in Unexpired(s, now) && p in s.pending && s.pending[p] == first;
    assert p !in Unexpired(r, later);
  }

  // What each event leaves

  /** The last event before `k` that marked `p` as received since the last Reconcile, or -1. */
  function LastMark(es: seq<Event>, k: nat, p: nat): (j: int)
    requires k <= |es|
    ensures -1 <= j < k && (j >= 0 ==> es[j].MarkReceived? && es[j].id == p)
  {
    if k == 0 || es[k - 1].Reconcile? then -1
    else if es[k - 1].MarkReceived? && es[k - 1].id == p then k - 1
    else LastMark(es, k - 1, p)
  }

  lemma {:induction false} MarksAre(ss: seq<Sync>, es: seq<Event>, k: nat, p: nat)
    requires Run(ss, es) && Initial(ss[0]) && k <= |es|
    ensures p in ss[k].receivedAt <==> LastMark(es, k, p) >= 0
    ensures LastMark(es, k, p) >= 0 ==> ss[k].receivedAt[p] == es[LastMark(es, k, p)].now
  {
    hide Unexpired, IsEarliest;
    if k > 0 {
      MarksAre(ss, es, k - 1, p);
      assert Next(ss[k - 1], es[k - 1], ss[k]);
    }
  }

  /** A Reconcile tracks exactly the listed partitions that were not received after the scan. A
      tracked one keeps its clock, a new one starts now. Receiving one stops tracking it, and
      nothing else does either. */
  lemma TrackedIs(ss: seq<Sync>, es: seq<Event>, k: nat, p: nat)
    requires Run(ss, es) && Initial(ss[0]) && k < |es|
    ensures var s, e, r := ss[k], es[k], ss[k + 1];
            var j := LastMark(es, k, p);
            && (e.Reconcile? ==>
                  && (p in r.pending <==> p in e.ids && !(j >= 0 && es[j].now > e.scannedAt))
                  && (p in r.pending ==> r.pending[p] == if p in s.pending then s.pending[p] else e.now))
            && (!e.Reconcile? ==>
                  && (p in r.pending <==> p in s.pending && !(e.MarkReceived? && e.id == p))
                  && (p in r.pending ==> r.pending[p] == s.pending[p]))
            && r.escape == if e.Reconcile? then e.escape else s.escape
  {
    hide Unexpired, IsEarliest;
    MarksAre(ss, es, k, p);
    assert Next(ss[k], es[k], ss[k + 1]);
  }

  /** Every tracked partition has an escape time and has waited that long. */
  predicate AllWaited(s: Sync, now: int) {
    forall p :: p in s.pending ==> s.escape > 0 && now - s.pending[p] >= s.escape
  }

  lemma NothingLeft(s: Sync, now: int)
    ensures Unexpired(s, now) == {} <==> AllWaited(s, now)
  {
    if Unexpired(s, now) == {} {
      NothingCounts(s, now);
    }
  }

  /** Done holds after an event exactly when every tracked partition has waited long enough, or it
      held before and the event was no Reconcile. */
  lemma DoneIff(ss: seq<Sync>, es: seq<Event>, k: nat)
    requires Run(ss, es) && k < |es|
    ensures ss[k + 1].done <==> AllWaited(ss[k + 1], es[k].now) || (ss[k].done && !es[k].Reconcile?)
  {
    hide IsEarliest;
    assert Next(ss[k], es[k], ss[k + 1]);
    NothingLeft(ss[k + 1], es[k].now);
    SameCounting(ss[k], es[k], ss[k + 1]);
  }

  lemma SameCounting(s: Sync, e: Event, r: Sync)
    requires Next(s, e, r)
    ensures var before := match e
              case Reconcile(ids, escape, scannedAt, now) => Rebuilt(s, ids, escape, scannedAt, now)
              case MarkReceived(id, now) => s.(pending := s.pending - {id})
              case Fire(_) => s
              case Poll(_) => s;
            Unexpired(r, e.now) == Unexpired(before, e.now)
  {
    hide IsEarliest;
  }

  /** The timer is set to the deadline of the counting partition that has waited longest, and a
      millisecond from now at the least. */
  ghost predicate TimerFor(r: Sync, now: int, p: nat) {
    && p in r.pending && now - r.pending[p] < r.escape
    && (forall q :: q in r.pending && now - r.pending[q] < r.escape ==> r.pending[p] <= r.pending[q])
    && r.timer == Some(if r.pending[p] + r.escape < now + 1_000_000 then now + 1_000_000 else r.pending[p] + r.escape)
  }

  lemma RefreshedTimer(s: Sync, now: int, r: Sync) returns (p: nat)
    requires Refreshed(s, now, r) && s.escape > 0 && Unexpired(s, now) != {}
    ensures TimerFor(r, now, p)
  {
    var first :| IsEarliest(s, Unexpired(s, now), first)
      && r == s.(timer := Some(now + if first + s.escape - now < MILLISECOND then MILLISECOND else first + s.escape - now));
    p :| p in Unexpired(s, now) && p in s.pending && s.pending[p] == first;
    forall q | q in r.pending && now - r.pending[q] < r.escape
      ensures r.pending[p] <= r.pending[q]
    {
      assert q in Unexpired(s, now);
    }
  }

  lemma RefreshedKeeps(s: Sync, now: int, r: Sync)
    requires Refreshed(s, now, r)
    ensures Unexpired(r, now) == Unexpired(s, now) && r.escape == s.escape
  {
  }

  /** So does every event but a poll, while partitions count. */
  lemma TimerIs(ss: seq<Sync>, es: seq<Event>, k: nat) returns (p: nat)
    requires Run(ss, es) && k < |es| && !es[k].Poll? && ss[k + 1].escape > 0 && !AllWaited(ss[k + 1], es[k].now)
    ensures TimerFor(ss[k + 1], es[k].now, p)
  {
    hide Refreshed, TimerFor, AllWaited, Unexpired;
    var r, now := ss[k + 1], es[k].now;
    assert Next(ss[k], es[k], r);
    NothingLeft(r, now);
    var before := match es[k]
      case Reconcile(ids, escape, scannedAt, at) => Rebuilt(ss[k], ids, escape, scannedAt, at)
      case MarkReceived(id, at) => ss[k].(pending := ss[k].pending - {id}, receivedAt := ss[k].receivedAt[id := at])
      case Fire(_) => ss[k]
      case Poll(_) => ss[k];
    RefreshedKeeps(before, now, r);
    p := RefreshedTimer(before, now, r);
  }

  /** Otherwise the timer is stopped when nothing counts any more, and left as it is without an
      escape time; a poll never touches it. */
  lemma TimerElse(ss: seq<Sync>, es: seq<Event>, k: nat)
    requires Run(ss, es) && k < |es|
    ensures var s, r, now := ss[k], ss[k + 1], es[k].now;
            && (es[k].Poll? ==> r.timer == s.timer)
            && (!es[k].Poll? && AllWaited(r, now) ==> r.timer == None)
            && (!es[k].Poll? && !AllWaited(r, now) && r.escape <= 0 ==> r.timer == s.timer)
  {
    hide IsEarliest;
    assert Next(ss[k], es[k], ss[k + 1]);
    NothingLeft(ss[k + 1], es[k].now);
    SameCounting(ss[k], es[k], ss[k + 1]);
  }

  // In place

  /** A channel that carries only its closing. */
  class Signal {
    var closed: bool

    constructor ()
      ensures !closed
    {
      closed := false;
    }

    /** Closing twice would panic. */
    method Close()
      requires !closed
      modifies this
      ensures closed
    {
      closed := true;
    }
  }

  class State {
    var pending: map<nat, int>
    var receivedAt: map<nat, int>
    var escape: int
    var timer: Option<int>
    var done: bool
    var doneCh: Signal
    /** Whether the current once has run. */
    var signalled: bool

    /** The current channel is closed exactly when done. */
    ghost predicate Valid()
      reads this, doneCh
    {
      doneCh.closed == signalled && (signalled <==> done)
    }

    function View(): Sync
      reads this
    {
      Sync(pending, receivedAt, escape, done, timer)
    }

    constructor ()
      ensures Valid() && Initial(View()) && fresh(doneCh)
    {
      pending, receivedAt, escape, timer, done, signalled := map[], map[], 0, None, false, false;
      doneCh := new Signal();
    }

    method UnexpiredCount(now: int) returns (n: nat)
      ensures n == |Unexpired(View(), now)|
    {
      if escape <= 0 {
        assert Unexpired(View(), now) == pending.Keys;
        return |pending|;
      }
      hide Unexpired;
      n := 0;
      var left := pending.Keys;
      AllLeft(View(), now);
      while left != {}
        invariant left <= pending.Keys && n == |Unexpired(View(), now) - left|
        decreases left
      {
        var p :| p in left;
        OneSeen(View(), now, left, p);
        if now - pending[p] < escape {
          n := n + 1;
        }
        left := left - {p};
      }
      assert Unexpired(View(), now) - left == Unexpired(View(), now);
    }

    method Earliest(now: int) returns (first: int)
      requires escape > 0 && Unexpired(View(), now) != {}
      ensures IsEarliest(View(), Unexpired(View(), now), first)
    {
      var found := false;
      first := 0;
      var left := pending.Keys;
      while left != {}
        invariant left <= pending.Keys
        invariant found <==> Unexpired(View(), now) - left != {}
        invariant found ==> IsEarliest(View(), Unexpired(View(), now) - left, first)
        decreases left
      {
        var p :| p in left;
        ghost var seen := Unexpired(View(), now) - left;
        if now - pending[p] < escape {
          assert Unexpired(View(), now) - (left - {p}) == seen + {p};
          if !found || pending[p] < first {
            found, first := true, pending[p];
          }
        } else {
          assert Unexpired(View(), now) - (left - {p}) == seen;
        }
        left := left - {p};
      }
      assert Unexpired(View(), now) - left == Unexpired(View(), now);
    }

    /** signalDoneLocked. */
    method SignalDone()
      requires Valid()
      modifies this`done, this`signalled, doneCh
      ensures Valid() && done
    {
      done := true;
      if !signalled {
        signalled := true;
        doneCh.Close();
      }
    }

    method Refresh(now: int)
      requires Valid()
      modifies this`done, this`signalled, this`timer, doneCh
      ensures Valid() && Refreshed(old(View()), now, View())
    {
      var n := UnexpiredCount(now);
      if n == 0 {
        timer := None;
        SignalDone();
        return;
      }
      if escape <= 0 {
        return;
      }
      var first := Earliest(now);
      var d := first + escape - now;
      if d < MILLISECOND {
        d := MILLISECOND;
      }
      timer := Some(now + d);
    }

    method Track(ids: seq<nat>, scannedAt: int, now: int) returns (next: map<nat, int>)
      ensures next == Tracked(pending, receivedAt, ids, scannedAt, now)
    {
      next := map[];
      var i := 0;
      while i < |ids|
        invariant i <= |ids| && next == Tracked(pending, receivedAt, ids[..i], scannedAt, now)
      {
        var id := ids[i];
        assert ids[..i + 1] == ids[..i] + [id];
        if !(id in receivedAt && receivedAt[id] > scannedAt) {
          next := next[id := if id in pending then pending[id] else now];
        }
        i := i + 1;
      }
      assert ids[..i] == ids;
    }

    method ReconcileTo(ids: seq<nat>, newEscape: int, scannedAt: int, now: int)
      requires Valid()
      modifies this, doneCh
      ensures Valid() && Next(old(View()), Reconcile(ids, newEscape, scannedAt, now), View())
      ensures old(doneCh).closed && fresh(doneCh)
    {
      hide Refreshed, Tracked;
      escape := newEscape;
      var next := Track(ids, scannedAt, now);
      pending := next;
      receivedAt := map[];
      done := false;
      if !signalled {
        doneCh.Close();
      }
      doneCh := new Signal();
      signalled := false;
      assert View() == Rebuilt(old(View()), ids, newEscape, scannedAt, now);
      Refresh(now);
    }

    method Received(id: nat, now: int)
      requires Valid()
      modifies this, doneCh
      ensures Valid() && Next(old(View()), MarkReceived(id, now), View()) && doneCh == old(doneCh)
    {
      pending := pending - {id};
      receivedAt := receivedAt[id := now];
      Refresh(now);
    }

    method Expire(now: int)
      requires Valid()
      modifies this, doneCh
      ensures Valid() && Next(old(View()), Fire(now), View()) && doneCh == old(doneCh)
    {
      Refresh(now);
    }

    method Expired(id: nat, now: int) returns (r: bool)
      ensures r <==> id in pending && id !in Unexpired(View(), now)
    {
      if id !in pending || escape <= 0 {
        return false;
      }
      r := now - pending[id] >= escape;
    }

    method PendingEmpty(now: int) returns (r: bool)
      requires Valid()
      modifies this`done, this`signalled, doneCh
      ensures Valid() && Next(old(View()), Poll(now), View())
      ensures r <==> Unexpired(View(), now) == {}
      ensures r ==> done
    {
      var n := UnexpiredCount(now);
      if n > 0 {
        return false;
      }
      SignalDone();
      r := true;
    }

    method IsDone(now: int) returns (r: bool)
      requires Valid()
      modifies this`done, this`signalled, doneCh
      ensures Valid() && (r <==> done) && (old(done) || Next(old(View()), Poll(now), View()))
      ensures old(done) ==> View() == old(View())
    {
      if done {
        return true;
      }
      var n := UnexpiredCount(now);
      if n == 0 {
        SignalDone();
        return true;
      }
      r := false;
    }
  }

  lemma AllLeft(s: Sync, now: int)
    ensures |Unexpired(s, now) - s.pending.Keys| == 0
  {
    assert Unexpired(s, now) - s.pending.Keys == {};
  }

  lemma OneSeen(s: Sync, now: int, left: set<nat>, p: nat)
    requires p in left && left <= s.pending.Keys
    ensures |Unexpired(s, now) - (left - {p})| == |Unexpired(s, now) - left| + if Expires(s.pending[p], s.escape, now) then 0 else 1
  {
    if Expires(s.pending[p], s.escape, now) {
      assert Unexpired(s, now) - (left - {p}) == Unexpired(s, now) - left;
    } else {
      assert Unexpired(s, now) - (left - {p}) == Unexpired(s, now) - left + {p};
    }
  }
}
