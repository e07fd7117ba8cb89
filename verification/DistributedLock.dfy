/** The distributed lock on one key of a stable owner: Lock is a conditional put under the
    key lock, Unlock reads, compares and deletes under a named lock. Locks have no timeout,
    tokens are unique, nothing else writes the key, and read repair is off. */
module DistributedLock {
  import opened Codec

  type Token = nat
  type Op = nat

  const TOKEN_LENGTH: nat := 16

  /** Whether puts wait for the backups or go to them later, the number of backups, the quorums,
      the length of the lock's key, and the table sizes of the primary and of the backups. */
  datatype Config = Config(sync: bool, backups: nat, readQuorum: nat, writeQuorum: nat, keyLength: nat,
                           primarySize: nat, backupSize: nat)

  function RecordSize(cfg: Config): nat {
    METADATA_LENGTH + cfg.keyLength + TOKEN_LENGTH
  }

  /** The primary's write checks the key length and the size. */
  predicate PrimaryStores(cfg: Config) {
    cfg.keyLength < MAX_KEY_LENGTH && RecordSize(cfg) < cfg.primarySize
  }

  /** It does not return for a record of exactly its table size. */
  predicate PrimaryReturns(cfg: Config) {
    cfg.keyLength >= MAX_KEY_LENGTH || RecordSize(cfg) != cfg.primarySize
  }

  /** The backups store the encoded record, whose size alone is checked. */
  function Reachable(cfg: Config): nat {
    if RecordSize(cfg) < cfg.backupSize then cfg.backups else 0
  }

  /** A put that the primary refuses can be acknowledged by the backups. */
  predicate Bypassed(cfg: Config) {
    cfg.sync && PrimaryReturns(cfg) && !PrimaryStores(cfg) && cfg.writeQuorum <= Reachable(cfg)
  }

  /** A put that reaches the backups after the key was deleted can be read back from them. */
  predicate Lagging(cfg: Config) {
    !cfg.sync && PrimaryStores(cfg) && Reachable(cfg) > 0 && cfg.readQuorum <= Reachable(cfg)
  }

  predicate Guarded(cfg: Config) {
    !Bypassed(cfg) && !Lagging(cfg)
  }

  /** `Trying` has no lock; `Checking` and `Prepared` have the key lock; `Reading` and
      `Verified` have the named lock, `Deleting` both. */
  datatype Phase =
    | Trying(token: Token)
    | Checking(token: Token)
    | Prepared(token: Token)
    | Unlocking(token: Token)
    | Reading(token: Token)
    | Verified(token: Token)
    | Deleting(token: Token)

  /** The value the primary stores, the copies on the backups, the puts still on their way to
      them, when each token was stamped, the two locks and the operations under way; `used`,
      `issued`, `held` and `released` are the tokens drawn, returned by a Lock, held, and
      released by an Unlock. */
  datatype State = State(stored: Option<Token>, copies: map<nat, Token>, pending: set<(Token, nat)>, stamps: map<Token, nat>, clock: nat,
                         keyLock: Option<Op>, named: Option<Op>, ops: map<Op, Phase>,
                         used: set<Token>, issued: set<Token>, held: set<Token>, released: set<Token>)

  const INITIAL := State(None, map[], {}, map[], 0, None, None, map[], {}, {}, {}, {})

  /** A store is aborted by a backup call that fails; the backups in `acked` stored it first.
      `Replicate` is a put that reaches a backup apart from that. A read hears the copies of
      the backups in `answers` beside the primary's. */
  datatype Event =
    | LockBegin(op: Op, token: Token)
    | LockKey(op: Op)
    | LockCheck(op: Op)
    | LockStore(op: Op, acked: set<nat>, aborted: bool)
    | Replicate(token: Token, backup: nat)
    | GiveUp(op: Op)
    | UnlockBegin(op: Op, token: Token)
    | UnlockEnter(op: Op)
    | UnlockRead(op: Op, answers: set<nat>, seen: Option<Token>)
    | UnlockFails(op: Op)
    | UnlockKey(op: Op)
    | UnlockDelete(op: Op, deleted: bool)

  predicate In(s: State, op: Op) {
    op in s.ops
  }

  function Stamp(s: State, t: Token): nat {
    if t in s.stamps then s.stamps[t] else 0
  }

  /** A version a read has heard. */
  predicate Heard(s: State, answers: set<nat>, t: Token) {
    s.stored == Some(t) || exists i :: i in answers && i in s.copies && s.copies[i] == t
  }

  /** The read finds the newest of enough versions, or none at all. Too few are an error. */
  ghost predicate Reads(cfg: Config, s: State, answers: set<nat>, seen: Option<Token>) {
    && answers <= s.copies.Keys
    && match seen
       case None => s.stored.None? && answers == {}
       case Some(t) =>
         && |answers| + (if s.stored.Some? then 1 else 0) >= cfg.readQuorum
         && Heard(s, answers, t) && forall u :: Heard(s, answers, u) ==> Stamp(s, u) <= Stamp(s, t)
  }

  predicate Reached(cfg: Config, acked: set<nat>) {
    forall i :: i in acked ==> i < Reachable(cfg)
  }

  /** With quorums a backup may receive a token that is not returned, or not yet, at any time;
      otherwise it receives a stored token once, at any time after. Only a token some Lock
      returned can be presented to Unlock. */
  ghost predicate Enabled(cfg: Config, s: State, e: Event) {
    match e
    case LockBegin(op, token) => op !in s.ops && token !in s.used
    case LockKey(op) => In(s, op) && s.ops[op].Trying? && s.keyLock.None?
    case LockCheck(op) => In(s, op) && s.ops[op].Checking?
    case LockStore(op, acked, aborted) =>
      && In(s, op) && s.ops[op].Prepared? && (aborted || PrimaryReturns(cfg))
      && (if cfg.sync then Reached(cfg, acked) else acked == {} && !aborted)
    case Replicate(token, backup) =>
      backup < Reachable(cfg) && if cfg.sync then token in s.used && token !in s.issued else (token, backup) in s.pending
    case GiveUp(op) => In(s, op) && s.ops[op].Trying?
    case UnlockBegin(op, token) => op !in s.ops && token in s.issued
    case UnlockEnter(op) => In(s, op) && s.ops[op].Unlocking? && s.named.None?
    case UnlockRead(op, answers, seen) => In(s, op) && s.ops[op].Reading? && Reads(cfg, s, answers, seen)
    case UnlockFails(op) => In(s, op) && s.ops[op].Reading?
    case UnlockKey(op) => In(s, op) && s.ops[op].Verified? && s.keyLock.None?
    case UnlockDelete(op, deleted) => In(s, op) && s.ops[op].Deleting?
  }

  /** The put is acknowledged: with quorums by enough nodes, the failure of the local store
      being only logged, and otherwise by the local store. */
  predicate Acknowledged(cfg: Config, acks: nat) {
    var local := if PrimaryStores(cfg) then 1 else 0;
    if cfg.sync then acks + local >= cfg.writeQuorum else local == 1
  }

  /** The puts to all backups, which go out once the primary has stored the token. */
  function Sent(cfg: Config, token: Token): set<(Token, nat)> {
    if !cfg.sync && PrimaryStores(cfg) then set i | 0 <= i < cfg.backups :: (token, i) else {}
  }

  function WithCopies(copies: map<nat, Token>, on: set<nat>, token: Token): map<nat, Token> {
    copies + map i | i in on :: token
  }

  function OnStore(cfg: Config, s: State, op: Op, acked: set<nat>, aborted: bool): State
    requires In(s, op)
  {
    var token := s.ops[op].token;
    var r := s.(stored := if !aborted && PrimaryStores(cfg) then Some(token) else s.stored,
                copies := WithCopies(s.copies, acked, token), pending := s.pending + Sent(cfg, token),
                keyLock := None, ops := s.ops - {op});
    if !aborted && Acknowledged(cfg, |acked|) then r.(issued := s.issued + {token}, held := s.held + {token}) else r
  }

  ghost function Step(cfg: Config, s: State, e: Event): State
    requires Enabled(cfg, s, e)
  {
    match e
    case LockBegin(op, token) => s.(ops := s.ops[op := Trying(token)], used := s.used + {token})
    case LockKey(op) => s.(keyLock := Some(op), ops := s.ops[op := Checking(s.ops[op].token)])
    case LockCheck(op) =>
      var token := s.ops[op].token;
      if s.stored.Some? then s.(keyLock := None, ops := s.ops[op := Trying(token)])
      else s.(ops := s.ops[op := Prepared(token)], stamps := s.stamps[token := s.clock], clock := s.clock + 1)
    case LockStore(op, acked, aborted) => OnStore(cfg, s, op, acked, aborted)
    case Replicate(token, backup) => s.(copies := s.copies[backup := token], pending := s.pending - {(token, backup)})
    case GiveUp(op) => s.(ops := s.ops - {op})
    case UnlockBegin(op, token) => s.(ops := s.ops[op := Unlocking(token)])
    case UnlockEnter(op) => s.(named := Some(op), ops := s.ops[op := Reading(s.ops[op].token)])
    case UnlockRead(op, _, seen) =>
      if seen == Some(s.ops[op].token) then s.(ops := s.ops[op := Verified(s.ops[op].token)])
      else s.(named := None, ops := s.ops - {op})
    case UnlockFails(op) => s.(named := None, ops := s.ops - {op})
    case UnlockKey(op) => s.(keyLock := Some(op), ops := s.ops[op := Deleting(s.ops[op].token)])
    case UnlockDelete(op, deleted) =>
      var token := s.ops[op].token;
      var r := s.(named := None, keyLock := None, ops := s.ops - {op});
      if deleted then r.(stored := None, copies := map[], held := s.held - {token}, released := s.released + {token}) else r
  }

  // The invariant of guarded locks

  predicate HasKey(p: Phase) {
    p.Checking? || p.Prepared? || p.Deleting?
  }

  predicate HasNamed(p: Phase) {
    p.Reading? || p.Verified? || p.Deleting?
  }

  predicate Locks(p: Phase) {
    p.Trying? || p.Checking? || p.Prepared?
  }

  ghost predicate Serial(s: State) {
    forall op :: op in s.ops ==>
      && (HasKey(s.ops[op]) ==> s.keyLock == Some(op))
      && (HasNamed(s.ops[op]) ==> s.named == Some(op))
  }

  /** A prepared Lock still finds the key absent; a verified Unlock still finds its token. */
  ghost predicate Stable(s: State) {
    forall op :: op in s.ops ==>
      && (s.ops[op].Prepared? ==> s.stored.None?)
      && (s.ops[op].Verified? || s.ops[op].Deleting? ==> s.stored == Some(s.ops[op].token))
  }

  /** A Lock's token is not stored by the primary, not issued and not released. */
  ghost predicate Private(s: State) {
    forall op :: op in s.ops && Locks(s.ops[op]) ==>
      s.ops[op].token in s.used && s.ops[op].token !in s.issued && s.stored != Some(s.ops[op].token) && s.ops[op].token !in s.released
  }

  ghost predicate Distinct(s: State) {
    forall a, b :: a in s.ops && b in s.ops && a != b && Locks(s.ops[a]) && Locks(s.ops[b]) ==> s.ops[a].token != s.ops[b].token
  }

  ghost predicate Tokens(s: State) {
    && (forall op :: op in s.ops && !Locks(s.ops[op]) ==> s.ops[op].token in s.issued)
    && s.issued <= s.used
    && (s.stored.Some? ==> s.stored.value in s.used && s.stored.value !in s.released)
    && (forall t :: t in s.held ==> s.stored == Some(t) && t in s.issued)
    && s.released <= s.used
  }

  predicate ReadsBackups(cfg: Config) {
    cfg.readQuorum <= Reachable(cfg)
  }

  /** Where the backups alone can answer a read, a copy of a returned token is of the one stored. */
  ghost predicate Remote(cfg: Config, s: State) {
    ReadsBackups(cfg) ==> forall i :: i in s.copies && s.copies[i] in s.issued ==> s.stored == Some(s.copies[i])
  }

  /** Only backups with room have copies; puts are under way only without quorums. */
  ghost predicate Located(cfg: Config, s: State) {
    && (forall i :: i in s.copies ==> i < Reachable(cfg))
    && (s.pending != {} ==> !cfg.sync && PrimaryStores(cfg))
  }

  /** What is stored, or about to be, was stamped after every other returned token. */
  ghost predicate Ordered(s: State) {
    && (forall t :: t in s.stamps ==> s.stamps[t] < s.clock)
    && s.issued <= s.stamps.Keys
    && (s.stored.Some? ==> s.stored.value in s.stamps && forall t :: t in s.issued && t != s.stored.value ==> s.stamps[t] < s.stamps[s.stored.value])
    && (forall op :: op in s.ops && s.ops[op].Prepared? ==>
          s.ops[op].token in s.stamps && forall t :: t in s.issued ==> s.stamps[t] < s.stamps[s.ops[op].token])
  }

  ghost predicate Inv(cfg: Config, s: State) {
    Serial(s) && Stable(s) && Private(s) && Distinct(s) && Tokens(s) && Remote(cfg, s) && Located(cfg, s) && Ordered(s)
  }

  lemma {:induction false} BelowSize(a: set<nat>, n: nat)
    requires forall i :: i in a ==> i < n
    ensures |a| <= n
  {
    if n == 0 {
      assert a == {};
    } else {
      BelowSize(a - {n - 1}, n - 1);
    }
  }

  /** In a guarded configuration an acknowledged put is stored by the primary. */
  lemma GuardedStores(cfg: Config, acked: set<nat>)
    requires Guarded(cfg) && PrimaryReturns(cfg) && (cfg.sync ==> Reached(cfg, acked)) && Acknowledged(cfg, |acked|)
    ensures PrimaryStores(cfg)
  {
    if cfg.sync {
      BelowSize(acked, Reachable(cfg));
    }
  }

  /** A returned token that a read finds is the one the primary stores. */
  lemma ReadsStored(cfg: Config, s: State, answers: set<nat>, t: Token)
    requires Inv(cfg, s) && Reads(cfg, s, answers, Some(t)) && t in s.issued
    ensures s.stored == Some(t)
  {
    hide Serial, Stable, Private, Distinct, Tokens;
    BelowSize(answers, Reachable(cfg));
    if s.stored.Some? {
      assert Heard(s, answers, s.stored.value);
    }
  }

  /** A read finds nothing only when there is no version to hear. */
  lemma NothingRead(cfg: Config, s: State, answers: set<nat>, t: Token)
    requires Reads(cfg, s, answers, None)
    ensures !Heard(s, answers, t)
  {
  }

  /** A put that went out without waiting arrives at a backup once. */
  lemma ArrivesOnce(cfg: Config, s: State, token: Token, backup: nat)
    requires !cfg.sync && Enabled(cfg, s, Replicate(token, backup))
    ensures !Enabled(cfg, Step(cfg, s, Replicate(token, backup)), Replicate(token, backup))
  {
  }

  lemma StepSerial(cfg: Config, s: State, e: Event)
    requires Enabled(cfg, s, e) && Inv(cfg, s)
    ensures Serial(Step(cfg, s, e))
  {
    hide Stable, Private, Distinct, Tokens, Remote, Located, Ordered, Reads, Reached, Reachable, PrimaryStores, PrimaryReturns, Acknowledged, Sent, WithCopies;
  }

  lemma StepStable(cfg: Config, s: State, e: Event)
    requires Enabled(cfg, s, e) && Inv(cfg, s)
    ensures Stable(Step(cfg, s, e))
  {
    hide Private, Distinct, Remote, Located, Ordered, Reads, Reached, Reachable, PrimaryStores, PrimaryReturns, Acknowledged, Sent, WithCopies;
    if e.UnlockRead? && e.seen == Some(s.ops[e.op].token) {
      ReadsStored(cfg, s, e.answers, e.seen.value);
    }
  }

  lemma StepPrivate(cfg: Config, s: State, e: Event)
    requires Enabled(cfg, s, e) && Inv(cfg, s)
    ensures Private(Step(cfg, s, e))
  {
    hide Serial, Stable, Remote, Located, Ordered, Reads, Reached, Reachable, PrimaryStores, PrimaryReturns, Acknowledged, Sent, WithCopies;
  }

  lemma StepDistinct(cfg: Config, s: State, e: Event)
    requires Enabled(cfg, s, e) && Inv(cfg, s)
    ensures Distinct(Step(cfg, s, e))
  {
    hide Serial, Stable, Tokens, Remote, Located, Ordered, Reads, Reached, Reachable, PrimaryStores, PrimaryReturns, Acknowledged, Sent, WithCopies;
  }

  lemma StepTokens(cfg: Config, s: State, e: Event)
    requires Enabled(cfg, s, e) && Inv(cfg, s) && Guarded(cfg)
    ensures Tokens(Step(cfg, s, e))
  {
    hide Serial, Distinct, Remote, Located, Ordered, Reads, Reached, Reachable, PrimaryStores, PrimaryReturns, Acknowledged, Guarded, Sent, WithCopies;
    if e.LockStore? && !e.aborted && Acknowledged(cfg, |e.acked|) {
      GuardedStores(cfg, e.acked);
    }
  }

  lemma StoreRemote(cfg: Config, s: State, op: Op, acked: set<nat>, aborted: bool)
    requires Enabled(cfg, s, LockStore(op, acked, aborted)) && Inv(cfg, s) && Guarded(cfg)
    ensures Remote(cfg, OnStore(cfg, s, op, acked, aborted))
  {
    hide Serial, Distinct, Tokens, Located, Ordered, Reached, Reachable, PrimaryStores, PrimaryReturns, Acknowledged, Guarded, Sent, ReadsBackups;
    if !aborted && Acknowledged(cfg, |acked|) {
      GuardedStores(cfg, acked);
    }
  }

  lemma StepRemote(cfg: Config, s: State, e: Event)
    requires Enabled(cfg, s, e) && Inv(cfg, s) && Guarded(cfg)
    ensures Remote(cfg, Step(cfg, s, e))
  {
    hide Serial, Stable, Private, Distinct, Tokens, Ordered, Reads, Reached, Reachable, PrimaryStores, PrimaryReturns, OnStore;
    if e.LockStore? {
      StoreRemote(cfg, s, e.op, e.acked, e.aborted);
    }
  }

  lemma StepLocated(cfg: Config, s: State, e: Event)
    requires Enabled(cfg, s, e) && Inv(cfg, s)
    ensures Located(cfg, Step(cfg, s, e))
  {
    hide Serial, Stable, Private, Distinct, Tokens, Remote, Ordered, Reads, Reachable, PrimaryReturns, Acknowledged;
  }

  lemma StepOrdered(cfg: Config, s: State, e: Event)
    requires Enabled(cfg, s, e) && Inv(cfg, s) && Guarded(cfg)
    ensures Ordered(Step(cfg, s, e))
  {
    hide Distinct, Remote, Located, Reads, Reached, Reachable, PrimaryStores, PrimaryReturns, Acknowledged, Guarded, Sent, WithCopies;
    if e.LockStore? && !e.aborted && Acknowledged(cfg, |e.acked|) {
      GuardedStores(cfg, e.acked);
    }
  }

  lemma StepInv(cfg: Config, s: State, e: Event)
    requires Enabled(cfg, s, e) && Inv(cfg, s) && Guarded(cfg)
    ensures Inv(cfg, Step(cfg, s, e))
  {
    hide Step, Enabled, Serial, Stable, Private, Distinct, Tokens, Remote, Located, Ordered, Guarded;
    StepSerial(cfg, s, e);
    StepStable(cfg, s, e);
    StepPrivate(cfg, s, e);
    StepDistinct(cfg, s, e);
    StepTokens(cfg, s, e);
    StepRemote(cfg, s, e);
    StepLocated(cfg, s, e);
    StepOrdered(cfg, s, e);
  }

  // Runs

  ghost predicate Legal(cfg: Config, s: State, es: seq<Event>)
    decreases |es|
  {
    es == [] || (Enabled(cfg, s, es[0]) && Legal(cfg, Step(cfg, s, es[0]), es[1..]))
  }

  ghost function After(cfg: Config, s: State, es: seq<Event>): State
    requires Legal(cfg, s, es)
    decreases |es|
  {
    if es == [] then s else After(cfg, Step(cfg, s, es[0]), es[1..])
  }

  lemma {:induction false} RunInv(cfg: Config, s: State, es: seq<Event>)
    requires Inv(cfg, s) && Legal(cfg, s, es) && Guarded(cfg)
    ensures Inv(cfg, After(cfg, s, es))
    decreases |es|
  {
    hide Inv, Step, Enabled, Guarded;
    if es != [] {
      StepInv(cfg, s, es[0]);
      RunInv(cfg, Step(cfg, s, es[0]), es[1..]);
    }
  }

  lemma RunFromStart(cfg: Config, es: seq<Event>)
    requires Legal(cfg, INITIAL, es) && Guarded(cfg)
    ensures Inv(cfg, After(cfg, INITIAL, es))
  {
    assert Inv(cfg, INITIAL);
    RunInv(cfg, INITIAL, es);
  }

  /** At most one token is held at any moment, and while one is held the primary stores it. */
  lemma AtMostOneHeld(cfg: Config, es: seq<Event>, t: Token, u: Token)
    requires Legal(cfg, INITIAL, es) && Guarded(cfg)
    requires t in After(cfg, INITIAL, es).held && u in After(cfg, INITIAL, es).held
    ensures t == u && After(cfg, INITIAL, es).stored == Some(t)
  {
    hide After, Legal, Serial, Stable, Private, Distinct, Remote, Located, Ordered, Guarded;
    RunFromStart(cfg, es);
  }

  /** A store under the key lock happens only while no token is held: it ends nobody's hold. */
  lemma LockWaitsItsTurn(cfg: Config, es: seq<Event>, op: Op, acked: set<nat>)
    requires Legal(cfg, INITIAL, es) && Guarded(cfg) && Enabled(cfg, After(cfg, INITIAL, es), LockStore(op, acked, false))
    ensures After(cfg, INITIAL, es).held == {} && After(cfg, INITIAL, es).stored.None?
  {
    hide After, Legal, Serial, Private, Distinct, Remote, Located, Ordered, Guarded;
    RunFromStart(cfg, es);
  }

  /** A delete removes the token its Unlock presented, and no other: of any number of Unlocks
      with one token, whenever they come, at most one deletes, and never a later holder's. */
  lemma UnlockIsExact(cfg: Config, es: seq<Event>, op: Op)
    requires Legal(cfg, INITIAL, es) && Guarded(cfg) && Enabled(cfg, After(cfg, INITIAL, es), UnlockDelete(op, true))
    ensures var s := After(cfg, INITIAL, es);
            && s.stored == Some(s.ops[op].token)
            && s.ops[op].token !in s.released
            && (forall t :: t in s.held ==> t == s.ops[op].token)
  {
    hide After, Legal, Serial, Private, Distinct, Remote, Located, Ordered, Guarded;
    RunFromStart(cfg, es);
  }

  /** An Unlock with the token of a lock already released, or never granted, changes nothing. */
  lemma StaleUnlockRefused(cfg: Config, es: seq<Event>, op: Op, answers: set<nat>, seen: Option<Token>)
    requires Legal(cfg, INITIAL, es) && Guarded(cfg) && Enabled(cfg, After(cfg, INITIAL, es), UnlockRead(op, answers, seen))
    requires After(cfg, INITIAL, es).ops[op].token in After(cfg, INITIAL, es).released
    ensures op !in Step(cfg, After(cfg, INITIAL, es), UnlockRead(op, answers, seen)).ops
    ensures Step(cfg, After(cfg, INITIAL, es), UnlockRead(op, answers, seen)).stored == After(cfg, INITIAL, es).stored
  {
    hide After, Legal, Serial, Stable, Private, Distinct, Remote, Located, Ordered, Reads, Guarded;
    RunFromStart(cfg, es);
    var s := After(cfg, INITIAL, es);
    if seen == Some(s.ops[op].token) {
      ReadsStored(cfg, s, answers, seen.value);
    }
  }

  // The unguarded lock

  lemma Empty(cfg: Config)
    ensures Legal(cfg, INITIAL, []) && After(cfg, INITIAL, []) == INITIAL
  {
  }

  /** A run is one step longer. */
  lemma {:induction false} Then(cfg: Config, s: State, es: seq<Event>, e: Event)
    requires Legal(cfg, s, es) && Enabled(cfg, After(cfg, s, es), e)
    ensures Legal(cfg, s, es + [e]) && After(cfg, s, es + [e]) == Step(cfg, After(cfg, s, es), e)
    decreases |es|
  {
    hide Step, Enabled;
    if es == [] {
      assert [e][1..] == [];
    } else {
      assert (es + [e])[0] == es[0] && (es + [e])[1..] == es[1..] + [e];
      Then(cfg, Step(cfg, s, es[0]), es[1..], e);
    }
  }

  lemma Next(cfg: Config, es: seq<Event>, e: Event) returns (fs: seq<Event>)
    requires Legal(cfg, INITIAL, es) && Enabled(cfg, After(cfg, INITIAL, es), e)
    ensures Legal(cfg, INITIAL, fs) && After(cfg, INITIAL, fs) == Step(cfg, After(cfg, INITIAL, es), e)
  {
    hide Step, Enabled, Legal, After;
    fs := es + [e];
    Then(cfg, INITIAL, es, e);
  }

  predicate Free(s: State, op: Op, token: Token) {
    op !in s.ops && token !in s.used && s.keyLock.None? && s.stored.None?
  }

  function Granted(cfg: Config, s: State, token: Token, acked: set<nat>): State {
    s.(stored := if PrimaryStores(cfg) then Some(token) else None,
       copies := WithCopies(s.copies, acked, token), pending := s.pending + Sent(cfg, token),
       stamps := s.stamps[token := s.clock], clock := s.clock + 1,
       used := s.used + {token}, issued := s.issued + {token}, held := s.held + {token})
  }

  /** A Lock that finds the key absent is granted, whatever the primary does with the record. */
  lemma Grant(cfg: Config, es: seq<Event>, op: Op, token: Token, acked: set<nat>) returns (fs: seq<Event>)
    requires Legal(cfg, INITIAL, es) && Free(After(cfg, INITIAL, es), op, token)
    requires PrimaryReturns(cfg) && Acknowledged(cfg, |acked|) && (if cfg.sync then Reached(cfg, acked) else acked == {})
    ensures Legal(cfg, INITIAL, fs) && After(cfg, INITIAL, fs) == Granted(cfg, After(cfg, INITIAL, es), token, acked)
  {
    hide Legal, After, Reachable, PrimaryStores, PrimaryReturns, Acknowledged, Reached, Reads, Sent, WithCopies;
    ghost var ops := After(cfg, INITIAL, es).ops;
    fs := Next(cfg, es, LockBegin(op, token));
    fs := Next(cfg, fs, LockKey(op));
    fs := Next(cfg, fs, LockCheck(op));
    fs := Next(cfg, fs, LockStore(op, acked, false));
    assert After(cfg, INITIAL, fs).ops == ops;
  }

  /** An Unlock that reads its token, from the primary or the backups, has it verified. */
  lemma Verify(cfg: Config, es: seq<Event>, op: Op, t: Token, answers: set<nat>) returns (fs: seq<Event>)
    requires Legal(cfg, INITIAL, es)
    requires var s := After(cfg, INITIAL, es); op !in s.ops && t in s.issued && s.named.None? && Reads(cfg, s, answers, Some(t))
    ensures Legal(cfg, INITIAL, fs)
    ensures var s := After(cfg, INITIAL, es); After(cfg, INITIAL, fs) == s.(named := Some(op), ops := s.ops[op := Verified(t)])
  {
    hide Legal, After, Reads;
    ghost var s := After(cfg, INITIAL, es);
    fs := Next(cfg, es, UnlockBegin(op, t));
    fs := Next(cfg, fs, UnlockEnter(op));
    ReadsAlike(cfg, s, After(cfg, INITIAL, fs), answers, t);
    fs := Next(cfg, fs, UnlockRead(op, answers, Some(t)));
    assert After(cfg, INITIAL, fs).ops == s.ops[op := Verified(t)];
  }

  lemma ReadsAlike(cfg: Config, s: State, r: State, answers: set<nat>, t: Token)
    requires Reads(cfg, s, answers, Some(t)) && r.stored == s.stored && r.copies == s.copies && r.stamps == s.stamps
    ensures Reads(cfg, r, answers, Some(t))
  {
    assert forall u :: Heard(r, answers, u) == Heard(s, answers, u);
  }

  function Deleted(s: State, op: Op): State
    requires op in s.ops
  {
    s.(named := None, ops := s.ops - {op}, stored := None, copies := map[],
       held := s.held - {s.ops[op].token}, released := s.released + {s.ops[op].token})
  }

  lemma Delete(cfg: Config, es: seq<Event>, op: Op) returns (fs: seq<Event>)
    requires Legal(cfg, INITIAL, es)
    requires var s := After(cfg, INITIAL, es); op in s.ops && s.ops[op].Verified? && s.keyLock.None?
    ensures Legal(cfg, INITIAL, fs) && After(cfg, INITIAL, fs) == Deleted(After(cfg, INITIAL, es), op)
  {
    hide Legal, After, Reads;
    ghost var s := After(cfg, INITIAL, es);
    fs := Next(cfg, es, UnlockKey(op));
    fs := Next(cfg, fs, UnlockDelete(op, true));
    assert After(cfg, INITIAL, fs).ops == s.ops - {op};
  }

  predicate Within(first: nat, i: nat, last: nat) {
    first <= i < last
  }

  function Range(first: nat, last: nat): set<nat> {
    set i | 0 <= i < last && Within(first, i, last)
  }

  lemma {:induction false} RangeSize(first: nat, last: nat)
    requires first <= last
    ensures |Range(first, last)| == last - first
    decreases last
  {
    if first < last {
      assert Range(first, last) == Range(first, last - 1) + {last - 1};
      RangeSize(first, last - 1);
    }
  }

  /** The primary refuses the records of two Locks, one after the other with no Unlock between
      them, and the backups acknowledge both: both hold the lock. */
  lemma BypassedHolders(cfg: Config) returns (es: seq<Event>)
    requires Bypassed(cfg)
    ensures Legal(cfg, INITIAL, es) && After(cfg, INITIAL, es).held == {0, 1}
  {
    hide Legal, After, Step, Enabled, Reachable, PrimaryStores, PrimaryReturns, WithCopies, Sent;
    es := [];
    Empty(cfg);
    var all := Range(0, Reachable(cfg));
    RangeSize(0, Reachable(cfg));
    es := Grant(cfg, es, 0, 0, all);
    es := Grant(cfg, es, 0, 1, all);
  }

  // Puts that arrive late

  /** The puts of `token` to the backups from `i` up to `last` arrive. */
  lemma {:induction false} Arrive(cfg: Config, es: seq<Event>, token: Token, i: nat, last: nat) returns (fs: seq<Event>)
    requires Legal(cfg, INITIAL, es) && !cfg.sync && i <= last <= Reachable(cfg)
    requires forall j :: i <= j < last ==> (token, j) in After(cfg, INITIAL, es).pending
    ensures Legal(cfg, INITIAL, fs)
    ensures var s, r := After(cfg, INITIAL, es), After(cfg, INITIAL, fs);
            && r == s.(copies := r.copies, pending := r.pending)
            && r.copies == WithCopies(s.copies, Range(i, last), token)
            && forall j :: j < i || last <= j ==> ((token, j) in r.pending <==> (token, j) in s.pending)
    decreases last - i
  {
    hide Legal, After, Reachable, Reads, WithCopies, Range;
    fs := es;
    if i < last {
      fs := Next(cfg, es, Replicate(token, i));
      fs := Arrive(cfg, fs, token, i + 1, last);
      CopiesStep(After(cfg, INITIAL, es).copies, i, last, token);
    } else {
      NothingArrives(After(cfg, INITIAL, es).copies, i, token);
    }
  }

  lemma NothingArrives(copies: map<nat, Token>, i: nat, token: Token)
    ensures WithCopies(copies, Range(i, i), token) == copies
  {
  }

  lemma CopiesStep(copies: map<nat, Token>, i: nat, last: nat, token: Token)
    requires i < last
    ensures WithCopies(copies[i := token], Range(i + 1, last), token) == WithCopies(copies, Range(i, last), token)
  {
  }

  /** No operation is under way, and exactly the backups from `k` on have a copy: of `n`, which
      was returned and released. The tokens so far are those below `next`. */
  ghost predicate Lagged(cfg: Config, s: State, k: nat, n: Token, next: Token) {
    && s.stored.None? && s.keyLock.None? && s.named.None? && s.ops == map[] && s.held == {}
    && s.copies == WithCopies(map[], Range(k, Reachable(cfg)), n)
    && (k < Reachable(cfg) ==> n in s.issued && n < next && Stamp(s, n) < s.clock)
    && forall t :: t in s.used ==> t < next
  }

  /** A read that hears the newest token beside older copies. */
  lemma ReadsNewest(cfg: Config, s: State, t: Token)
    requires s.stored == Some(t) && |s.copies| + 1 >= cfg.readQuorum
    requires forall i :: i in s.copies ==> Stamp(s, s.copies[i]) <= Stamp(s, t)
    ensures Reads(cfg, s, s.copies.Keys, Some(t))
  {
    assert |s.copies.Keys| == |s.copies|;
  }

  lemma CopiesAt(copies: map<nat, Token>, on: set<nat>, t: Token)
    ensures var r := WithCopies(copies, on, t);
            && r.Keys == copies.Keys + on
            && forall i :: i in r ==> r[i] == t || (i in copies && r[i] == copies[i])
  {
  }

  lemma TwoRanges(k: nat, last: nat)
    requires 0 < k <= last
    ensures |Range(k, last) + Range(0, k - 1)| == last - 1
  {
    RangeSize(0, k - 1);
    RangeSize(k, last);
    assert Range(k, last) !! Range(0, k - 1);
  }

  lemma CopiesMerge(k: nat, last: nat, n: Token, t: Token)
    requires 0 < k <= last
    ensures var copies := WithCopies(WithCopies(map[], Range(k, last), n), Range(0, k - 1), t);
            |copies| == last - 1 && forall i :: i in copies ==> copies[i] == t || (k < last && copies[i] == n)
  {
    var older := WithCopies(map[], Range(k, last), n);
    var copies := WithCopies(older, Range(0, k - 1), t);
    CopiesAt(map[], Range(k, last), n);
    CopiesAt(older, Range(0, k - 1), t);
    TwoRanges(k, last);
    assert k == last ==> Range(k, last) == {};
    hide WithCopies, Range;
    assert copies.Keys == Range(k, last) + Range(0, k - 1);
    assert |copies| == |copies.Keys|;
  }

  lemma SentAll(cfg: Config, t: Token)
    requires Lagging(cfg)
    ensures forall j :: 0 <= j < Reachable(cfg) ==> (t, j) in Sent(cfg, t)
  {
  }

  /** One Lock and Unlock: the new token's puts reach the first `k - 1` backups before the Unlock
      reads, which with the copies left on the others is enough for its quorum, and the rest
      of the backups after it has deleted. */
  lemma LagStep(cfg: Config, es: seq<Event>, k: nat, n: Token, t: Token) returns (fs: seq<Event>)
    requires Lagging(cfg) && 0 < k <= Reachable(cfg)
    requires Legal(cfg, INITIAL, es) && Lagged(cfg, After(cfg, INITIAL, es), k, n, t)
    ensures Legal(cfg, INITIAL, fs) && Lagged(cfg, After(cfg, INITIAL, fs), k - 1, t, t + 1)
  {
    hide Legal, After, Step, Enabled, Reads, WithCopies, Sent, Reachable, PrimaryStores;
    var b := Reachable(cfg);
    LaggingStores(cfg);
    fs := Grant(cfg, es, 0, t, {});
    SentAll(cfg, t);
    NoCopies(After(cfg, INITIAL, es).copies, t);
    fs := Arrive(cfg, fs, t, 0, k - 1);
    CopiesMerge(k, b, n, t);
    ReadsNewest(cfg, After(cfg, INITIAL, fs), t);
    fs := Verify(cfg, fs, 1, t, After(cfg, INITIAL, fs).copies.Keys);
    fs := Delete(cfg, fs, 1);
    fs := Arrive(cfg, fs, t, k - 1, b);
    assert After(cfg, INITIAL, fs).ops == map[];
  }

  lemma NoCopies(copies: map<nat, Token>, t: Token)
    ensures WithCopies(copies, {}, t) == copies
  {
  }

  lemma LaggingStores(cfg: Config)
    requires Lagging(cfg)
    ensures PrimaryReturns(cfg) && PrimaryStores(cfg) && Acknowledged(cfg, 0)
  {
  }

  lemma {:induction false} LagAll(cfg: Config, k: nat) returns (es: seq<Event>, n: Token)
    requires Lagging(cfg) && k <= Reachable(cfg)
    ensures Legal(cfg, INITIAL, es) && Lagged(cfg, After(cfg, INITIAL, es), k, n, Reachable(cfg) - k)
    decreases Reachable(cfg) - k
  {
    hide Legal, After, Lagging, Reachable;
    if k == Reachable(cfg) {
      es, n := [], 0;
      Empty(cfg);
      assert WithCopies(map[], Range(k, k), n) == map[];
    } else {
      var fs, m := LagAll(cfg, k + 1);
      n := Reachable(cfg) - k - 1;
      es := LagStep(cfg, fs, k + 1, m, n);
    }
  }

  lemma ReadsCopies(cfg: Config, s: State, n: Token)
    requires s.stored.None? && ReadsBackups(cfg) && s.copies == WithCopies(map[], Range(0, Reachable(cfg)), n) && Reachable(cfg) > 0
    ensures Reads(cfg, s, Range(0, Reachable(cfg)), Some(n))
  {
    hide Reachable;
    RangeSize(0, Reachable(cfg));
    assert s.copies.Keys == Range(0, Reachable(cfg));
    assert 0 in s.copies && s.copies[0] == n;
    assert Heard(s, Range(0, Reachable(cfg)), n);
    assert forall u :: Heard(s, Range(0, Reachable(cfg)), u) ==> u == n;
  }

  /** After such rounds the puts of a released token reach all the backups late, and a second
      Unlock with it finds it there. A Lock is granted before that Unlock deletes, another one
      after it. */
  lemma LaggingHolders(cfg: Config) returns (es: seq<Event>)
    requires Lagging(cfg)
    ensures Legal(cfg, INITIAL, es) && After(cfg, INITIAL, es).held == {Reachable(cfg), Reachable(cfg) + 1}
  {
    hide Legal, After, Step, Enabled, Reads, WithCopies, Sent, Reachable, PrimaryStores;
    var b := Reachable(cfg);
    LaggingStores(cfg);
    var n;
    es, n := LagAll(cfg, 0);
    ReadsCopies(cfg, After(cfg, INITIAL, es), n);
    es := Verify(cfg, es, 1, n, Range(0, b));
    es := Grant(cfg, es, 0, b, {});
    es := Delete(cfg, es, 1);
    es := Grant(cfg, es, 0, b + 1, {});
  }

  ghost predicate Exclusive(cfg: Config) {
    forall es, t, u :: Legal(cfg, INITIAL, es) && t in After(cfg, INITIAL, es).held && u in After(cfg, INITIAL, es).held ==> t == u
  }

  /** The lock is exclusive over every interleaving if and only if it is guarded. */
  lemma ExclusiveIff(cfg: Config)
    ensures Exclusive(cfg) <==> Guarded(cfg)
  {
    hide Legal, After, Bypassed, Lagging;
    if Bypassed(cfg) {
      var es := BypassedHolders(cfg);
      assert 0 in After(cfg, INITIAL, es).held && 1 in After(cfg, INITIAL, es).held;
    } else if Lagging(cfg) {
      var es := LaggingHolders(cfg);
      var b := Reachable(cfg);
      assert b in After(cfg, INITIAL, es).held && b + 1 in After(cfg, INITIAL, es).held;
    } else {
      forall es, t, u | Legal(cfg, INITIAL, es) && t in After(cfg, INITIAL, es).held && u in After(cfg, INITIAL, es).held
        ensures t == u
      {
        AtMostOneHeld(cfg, es, t, u);
      }
    }
  }

  /** In a caller's terms, for configured quorums; a lock's record is 45 bytes and its key. When
      puts wait for backups that have room for the record and can reach the write quorum alone,
      the primary must take the record: a key under 256 bytes, a record no longer than its tables.
      When puts do not wait and all have room for the record, the backups must not reach the read
      quorum alone. */
  lemma ExclusiveMeans(cfg: Config)
    requires cfg.readQuorum >= 1 && cfg.writeQuorum >= 1
    ensures Exclusive(cfg) <==>
            if cfg.sync then
              cfg.keyLength + 45 < cfg.backupSize && cfg.writeQuorum <= cfg.backups ==>
                cfg.keyLength < 256 && cfg.keyLength + 45 <= cfg.primarySize
            else
              cfg.keyLength < 256 && cfg.keyLength + 45 < cfg.primarySize && cfg.keyLength + 45 < cfg.backupSize ==>
                cfg.readQuorum > cfg.backups
  {
    hide Exclusive;
    ExclusiveIff(cfg);
  }
}
