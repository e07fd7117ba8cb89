/** A history of a new or forked engine after which a scan misses a live entry. */
module ScanExamples {
  import opened Codec
  import opened TableModel
  import opened StoreModel
  import opened CompactionModel
  import opened StoreHistory
  import opened StoreExamples
  import opened ScanStore
  import Scan

  lemma ForgettingFacts()
    ensures StoreInv(ForgettingStore()) && HeadLive(ForgettingStore()) && Coherent(ForgettingStore())
    ensures 7 in ForgettingStore().tables[0].slots && ForgettingStore().tables[0].coefficient == 0
  {
    hide StoreInv, Coherent, Run, LegalRun;
    ForgettingRun();
    InitialInv(NewStore(100));
    HistoryStore(NewStore(100), ForgettingOps());
    NewCoherent();
    RunCoherent(NewStore(100), ForgettingOps());
  }

  lemma NewCoherent()
    ensures Coherent(NewStore(100))
  {
  }

  /** The entry under key 7 is put first and never touched again. A scan sees it until the
      compaction twenty minutes later, after which it is still found by key and seen by none. */
  lemma CleanupHidesEntry() returns (i: nat)
    ensures LegalRun(NewStore(100), ForgettingOps()) && Run(NewStore(100), ForgettingOps()) == ForgettingStore()
    ensures LegalRun(Forked(100), ForgettingOps()) && Run(Forked(100), ForgettingOps()) == ForgettingStore()
    ensures Coherent(ForgettingStore()) && 7 in ForgettingStore().tables[0].slots
    ensures PlaceOf(ForgettingStore(), 0, 7) in Seen(ForgettingStore())
    ensures var r := Compaction(ForgettingStore(), [], 20 * MINUTE, TIMEOUT);
            && Coherent(r) && i < |r.tables| && 7 in r.tables[i].slots
            && View(r.tables, 7) == Some(Small()) && PlaceOf(r, i, 7) !in Seen(r)
  {
    hide StoreInv, Coherent, Run, LegalRun, Seen, Cleanup;
    ForgettingRun();
    ForgettingFacts();
    ForgettingSeen();
    ForgettingCleanup();
    ForgettingExpired();
    i := FirstTableUnseen(ForgettingStore(), 20 * MINUTE, TIMEOUT, 0, 7);
    ForgettingView();
  }

  lemma ForgettingSeen()
    ensures Coherent(ForgettingStore()) && 7 in ForgettingStore().tables[0].slots
    ensures PlaceOf(ForgettingStore(), 0, 7) in Seen(ForgettingStore())
  {
    hide StoreInv, Coherent, Seen;
    ForgettingFacts();
    var keys := {0, 2};
    assert Scan.IsMin(keys, 0);
    Scan.LeastNotMissed(keys, 0);
    SeenIff(ForgettingStore(), 0, 7);
  }

  lemma ForgettingExpired()
    ensures SomeDroppable(ForgettingStore().tables, 0, 20 * MINUTE, TIMEOUT)
  {
    assert Droppable(ForgettingStore().tables[1], 20 * MINUTE, TIMEOUT);
  }

  lemma ForgettingView()
    ensures View([Holding(0, 7, Small(), ReadOnly), NewTable(100, 2)], 7) == Some(Small())
  {
    var ts := [Holding(0, 7, Small(), ReadOnly), NewTable(100, 2)];
    assert ts[..1] == [Holding(0, 7, Small(), ReadOnly)];
  }
}
