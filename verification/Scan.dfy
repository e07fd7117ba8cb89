/** Cursor scans over the tables of the engine.

    A cursor is a position in the concatenation of all tables by coefficient: the table size
    times the coefficient, plus an offset. A directory gives, for each indexed coefficient,
    the offsets of the live entries of its table. */
module Scan {
  import opened Codec

  type Directory = map<nat, set<nat>>

  /** An entry, by the coefficient of its table and its offset. */
  datatype Place = Place(cf: nat, offset: nat)

  // Inside one table

  ghost function From(offsets: set<nat>, cursor: nat): set<nat> {
    set o | o in offsets && o >= cursor
  }

  ghost predicate IsMin(s: set<nat>, m: nat) {
    m in s && forall o :: o in s ==> m <= o
  }

  lemma {:induction false} MinExists(s: set<nat>) returns (m: nat)
    requires s != {}
    ensures IsMin(s, m)
    decreases s
  {
    var x :| x in s;
    assert s == {x} + (s - {x});
    if s - {x} == {} {
      m := x;
    } else {
      var y := MinExists(s - {x});
      m := if x <= y then x else y;
    }
  }

  /** The iterator's Next after AdvanceIfNeeded(cursor). */
  method Next(offsets: set<nat>, cursor: nat) returns (o: Option<nat>)
    ensures o.None? <==> From(offsets, cursor) == {}
    ensures o.Some? ==> IsMin(From(offsets, cursor), o.value)
  {
    var rest := set x | x in offsets && x >= cursor;
    if rest == {} {
      return None;
    }
    ghost var least := MinExists(rest);
    assert IsMin(rest, least);
    var m :| m in rest && forall x :: x in rest ==> m <= x;
    o := Some(m);
  }

  /** Strictly increasing, so nothing occurs twice. */
  ghost predicate Ascending(s: seq<nat>) {
    forall i, j :: 0 <= i < j < |s| ==> s[i] < s[j]
  }

  /** What a table scan from `cursor` has visited and where it goes on: everything below the
      next cursor, everything there is when the next cursor is zero. */
  ghost predicate Scanned(offsets: set<nat>, cursor: nat, visited: seq<nat>, next: nat) {
    && Ascending(visited)
    && (next == 0 ==> forall o :: o in visited <==> o in offsets && o >= cursor)
    && (next != 0 ==>
          && cursor < next && From(offsets, next) != {}
          && forall o :: o in visited <==> o in offsets && cursor <= o < next)
  }

  lemma VisitNext(offsets: set<nat>, start: nat, cursor: nat, visited: seq<nat>, v: nat)
    requires Ascending(visited) && start <= cursor && IsMin(From(offsets, cursor), v)
    requires forall x :: x in visited <==> x in offsets && start <= x < cursor
    ensures Ascending(visited + [v])
    ensures forall x :: x in visited + [v] <==> x in offsets && start <= x < v + 1
  {
    forall i | 0 <= i < |visited|
      ensures visited[i] < v
    {
      assert visited[i] in visited;
    }
    forall x
      ensures x in visited + [v] <==> x in offsets && start <= x < v + 1
    {
      if x in offsets && cursor <= x < v + 1 {
        assert x in From(offsets, cursor);
      }
    }
  }

  /** Table.Scan with a callback that never stops it. */
  method TableScan(offsets: set<nat>, start: nat, count: nat) returns (visited: seq<nat>, next: nat)
    requires count >= 1
    ensures Scanned(offsets, start, visited, next)
    ensures |visited| <= count
    ensures next != 0 ==> |visited| == count && next == visited[count - 1] + 1
  {
    var cursor := start;
    visited := [];
    var num := 0;
    var o := Next(offsets, cursor);
    while o.Some? && num < count
      invariant num == |visited| <= count && start <= cursor && (num > 0 ==> start < cursor && cursor == visited[num - 1] + 1)
      invariant Ascending(visited)
      invariant forall x :: x in visited <==> x in offsets && start <= x < cursor
      invariant o.None? <==> From(offsets, cursor) == {}
      invariant o.Some? ==> IsMin(From(offsets, cursor), o.value)
      decreases count - num
    {
      VisitNext(offsets, start, cursor, visited, o.value);
      visited := visited + [o.value];
      cursor := o.value + 1;
      num := num + 1;
      o := Next(offsets, cursor);
    }
    if o.None? {
      forall x | x in offsets && x >= start
        ensures x in visited
      {
        assert x !in From(offsets, cursor);
      }
      next := 0;
    } else {
      next := cursor;
    }
  }

  // Across tables

  /** The sorted search of findCoefficient, from `cf` itself: the least key not below it. */
  ghost function Above(keys: set<nat>, cf: nat): (r: Option<nat>)
    ensures r.None? <==> From(keys, cf) == {}
    ensures r.Some? ==> IsMin(From(keys, cf), r.value)
  {
    if From(keys, cf) == {} then None
    else
      MinIs(From(keys, cf));
      var m :| IsMin(From(keys, cf), m);
      Some(m)
  }

  lemma MinIs(s: set<nat>)
    requires s != {}
    ensures exists m :: IsMin(s, m)
  {
    var m := MinExists(s);
  }

  /** The coefficients a scan goes through once it is at `cf`: the least key from there, and
      then on from its successor. When the successor is missing the cursor is put after the
      next table, which is passed over. */
  ghost function Route(keys: set<nat>, cf: nat): set<nat>
    decreases From(keys, cf)
  {
    var f := Above(keys, cf);
    if f.None? then {}
    else
      RouteShrinks(keys, cf, f.value);
      {f.value} + (match Onward(keys, f.value) case None => {} case Some(n) => Route(keys, n))
  }

  /** Where the cursor goes after the table `cf`. */
  ghost function Onward(keys: set<nat>, cf: nat): (r: Option<nat>)
    ensures r.Some? ==> r.value > cf
  {
    if cf + 1 in keys then Some(cf + 1)
    else match Above(keys, cf + 1) case None => None case Some(n) => Some(n + 1)
  }

  lemma RouteShrinks(keys: set<nat>, cf: nat, f: nat)
    requires IsMin(From(keys, cf), f)
    ensures forall n :: n > f ==> From(keys, n) < From(keys, cf)
  {
    forall n | n > f
      ensures From(keys, n) < From(keys, cf)
    {
      assert f in From(keys, cf) && f !in From(keys, n);
    }
  }

  ghost function Places(d: Directory, cfs: set<nat>): iset<Place> {
    iset p: Place | p.cf in d && p.cf in cfs && p.offset in d[p.cf]
  }

  /** Everything a scan has still to visit from `cursor`. */
  ghost function Due(d: Directory, size: nat, cursor: nat): iset<Place>
    requires size > 0
  {
    var cf := cursor / size;
    if cf !in d then Places(d, Route(d.Keys, cf))
    else
      (iset p: Place | p.cf == cf && p.offset in d[cf] && p.offset >= cursor % size)
      + (match Onward(d.Keys, cf) case None => iset{} case Some(n) => Places(d, Route(d.Keys, n)))
  }

  ghost predicate InRange(d: Directory, size: nat) {
    forall cf, o :: cf in d && o in d[cf] ==> o < size
  }

  ghost predicate NoRepeats(s: seq<Place>) {
    forall i, j :: 0 <= i < j < |s| ==> s[i] != s[j]
  }

  /** One step of a scan: what was visited is what was due before and is not due any more. */
  ghost predicate StepOf(d: Directory, size: nat, cursor: nat, visited: seq<Place>, next: nat)
    requires size > 0
  {
    && NoRepeats(visited)
    && (next == 0 ==> forall p :: p in visited <==> p in Due(d, size, cursor))
    && (next != 0 ==>
          && cursor < next
          && (forall p :: p in Due(d, size, cursor) <==> p in visited || p in Due(d, size, next))
          && (forall p :: p in visited ==> p !in Due(d, size, next)))
  }

  lemma CursorParts(size: nat, cf: nat, tc: nat)
    requires tc < size
    ensures (size * cf + tc) / size == cf && (size * cf + tc) % size == tc
  {
    var c := size * cf + tc;
    DivUnique(size, c / size, c % size, cf, tc);
  }

  lemma DivUnique(size: nat, q: nat, r: nat, cf: nat, tc: nat)
    requires size * q + r == size * cf + tc && r < size && tc < size
    ensures q == cf && r == tc
  {
    if q < cf {
      MulLess(size, q, cf);
    } else if cf < q {
      MulLess(size, cf, q);
    }
  }

  lemma {:induction false} MulLess(size: nat, a: nat, b: nat)
    requires a < b
    ensures size * a + size <= size * b
    decreases b
  {
    assert size * b == size * (b - 1) + size;
    if a < b - 1 {
      MulLess(size, a, b - 1);
    }
  }

  function ToPlaces(cf: nat, offsets: seq<nat>): (r: seq<Place>)
    ensures |r| == |offsets|
    ensures forall i :: 0 <= i < |r| ==> r[i] == Place(cf, offsets[i])
  {
    seq(|offsets|, i requires 0 <= i < |offsets| => Place(cf, offsets[i]))
  }

  lemma PlacesVisited(cf: nat, offsets: seq<nat>, p: Place)
    ensures p in ToPlaces(cf, offsets) <==> p.cf == cf && p.offset in offsets
  {
    var r := ToPlaces(cf, offsets);
    if p.cf == cf && p.offset in offsets {
      var i :| 0 <= i < |offsets| && offsets[i] == p.offset;
      assert r[i] == p;
    }
  }

  /** The cursor at the start of `n` is due for exactly the route from `n`. */
  lemma DueAtStart(d: Directory, size: nat, n: nat)
    requires size > 0
    ensures Due(d, size, size * n) == Places(d, Route(d.Keys, n))
  {
    CursorParts(size, n, 0);
    if n in d {
      assert IsMin(From(d.Keys, n), n);
      assert Above(d.Keys, n) == Some(n);
    }
  }

  /** Nothing on the route from `n` lies below it. */
  lemma {:induction false} RouteAbove(keys: set<nat>, n: nat, cf: nat)
    requires cf in Route(keys, n)
    ensures cf >= n && cf in keys
    decreases From(keys, n)
  {
    var f := Above(keys, n).value;
    assert f in From(keys, n);
    if cf != f {
      var m := Onward(keys, f).value;
      RouteShrinks(keys, n, f);
      RouteAbove(keys, m, cf);
    }
  }

  /** The scan of one table, then the step to the next. */
  lemma TableStep(d: Directory, size: nat, cf: nat, tc: nat, offsets: seq<nat>, tcNext: nat)
    requires size > 0 && cf in d && tc < size && InRange(d, size)
    requires Scanned(d[cf], tc, offsets, tcNext)
    ensures tcNext != 0 ==> StepOf(d, size, size * cf + tc, ToPlaces(cf, offsets), size * cf + tcNext)
    ensures tcNext == 0 && Onward(d.Keys, cf).None? ==> StepOf(d, size, size * cf + tc, ToPlaces(cf, offsets), 0)
    ensures tcNext == 0 && Onward(d.Keys, cf).Some? ==>
              StepOf(d, size, size * cf + tc, ToPlaces(cf, offsets), size * Onward(d.Keys, cf).value)
  {
    hide Route, Above, ToPlaces;
    var visited := ToPlaces(cf, offsets);
    forall p
      ensures p in visited <==> p.cf == cf && p.offset in offsets
    {
      PlacesVisited(cf, offsets, p);
    }
    CursorParts(size, cf, tc);
    if tcNext != 0 {
      var o :| o in From(d[cf], tcNext);
      CursorParts(size, cf, tcNext);
      forall p | p in visited
        ensures p !in Due(d, size, size * cf + tcNext)
      {
        NotOnward(d, cf, p);
      }
    } else if Onward(d.Keys, cf).Some? {
      var n := Onward(d.Keys, cf).value;
      DueAtStart(d, size, n);
      MulLess(size, cf, n);
      forall p | p in visited
        ensures p !in Due(d, size, size * n)
      {
        NotOnward(d, cf, p);
      }
    }
  }

  lemma NotOnward(d: Directory, cf: nat, p: Place)
    requires p.cf == cf
    ensures match Onward(d.Keys, cf) case None => true case Some(n) => p !in Places(d, Route(d.Keys, n))
  {
    match Onward(d.Keys, cf)
    case None =>
    case Some(n) =>
      if p in Places(d, Route(d.Keys, n)) {
        RouteAbove(d.Keys, n, cf);
      }
  }

  /** Ascending in one table, and no more than asked for. */
  ghost predicate Batch(visited: seq<Place>, count: nat) {
    |visited| <= count && forall i, j :: 0 <= i < j < |visited| ==> visited[i].cf == visited[j].cf && visited[i].offset < visited[j].offset
  }

  /** The part of scanCommon that scans the table under the cursor and steps on. */
  method ScanTable(d: Directory, size: nat, cf: nat, tc: nat, count: nat) returns (visited: seq<Place>, next: nat)
    requires size > 0 && count >= 1 && InRange(d, size) && cf in d && tc < size
    ensures StepOf(d, size, size * cf + tc, visited, next)
    ensures next <= size * (Top(d.Keys) + 1)
    ensures Batch(visited, count) && (next != 0 && |visited| < count ==> next % size == 0)
  {
    hide Route, Scanned, StepOf, Due;
    var offsets, tcNext := TableScan(d[cf], tc, count);
    visited := ToPlaces(cf, offsets);
    InOrder(cf, d[cf], tc, offsets, tcNext);
    TableStep(d, size, cf, tc, offsets, tcNext);
    if tcNext == 0 {
      if cf + 1 in d {
        Bounded(d, size, cf + 1);
        CursorParts(size, cf + 1, 0);
        return visited, size * (cf + 1);
      }
      var f := Next(d.Keys, cf + 1);
      if f.None? {
        return visited, 0;
      }
      Bounded(d, size, f.value + 1);
      CursorParts(size, f.value + 1, 0);
      return visited, size * (f.value + 1);
    }
    NextInside(d, size, cf, tc, offsets, tcNext);
    next := tcNext + size * cf;
  }

  /** scanCommon without an expression, on a store of so many tables. It divides by the table
      size: `ok` is false when that panics. */
  method ScanCommon(d: Directory, size: nat, tables: nat, start: nat, count: nat) returns (ok: bool, visited: seq<Place>, next: nat)
    requires count >= 1 && InRange(d, size) && (tables == 0 ==> d == map[])
    ensures ok <==> tables == 0 || size > 0
    ensures ok && size > 0 ==> StepOf(d, size, start, visited, next)
    ensures size == 0 ==> visited == [] && next == 0
    ensures next <= size * (Top(d.Keys) + 1)
    ensures Batch(visited, count) && (ok && next != 0 && |visited| < count ==> next % size == 0)
  {
    hide Route, StepOf, Due;
    if tables == 0 {
      if size > 0 {
        NothingDue(d, size, start);
      }
      return true, [], 0;
    }
    if size == 0 {
      return false, [], 0;
    }
    ok := true;
    var cursor := start;
    var cf := cursor / size;
    CursorDiv(size, cursor);
    if cf !in d {
      var f := Next(d.Keys, cf);
      if f.None? {
        NothingDue(d, size, start);
        return true, [], 0;
      }
      SkipTo(d, size, start, f.value);
      cf := f.value;
      cursor := size * cf;
    }
    visited, next := ScanTable(d, size, cf, cursor - size * cf, count);
    SameDue(d, size, start, cursor, visited);
  }

  lemma InOrder(cf: nat, table: set<nat>, tc: nat, offsets: seq<nat>, tcNext: nat)
    requires Scanned(table, tc, offsets, tcNext)
    ensures var vs := ToPlaces(cf, offsets);
            forall i, j :: 0 <= i < j < |vs| ==> vs[i].cf == vs[j].cf && vs[i].offset < vs[j].offset
  {
  }

  lemma CursorDiv(size: nat, cursor: nat)
    requires size > 0
    ensures cursor == size * (cursor / size) + cursor % size && cursor % size < size
  {
  }

  lemma NothingDue(d: Directory, size: nat, cursor: nat)
    requires size > 0 && cursor / size !in d && From(d.Keys, cursor / size) == {}
    ensures StepOf(d, size, cursor, [], 0)
  {
  }

  /** A cursor whose table is gone continues at the next table. */
  lemma SkipTo(d: Directory, size: nat, cursor: nat, f: nat)
    requires size > 0 && cursor / size !in d && IsMin(From(d.Keys, cursor / size), f)
    ensures Due(d, size, cursor) == Due(d, size, size * f)
    ensures cursor < size * f
  {
    DueAtStart(d, size, f);
    RouteSkip(d.Keys, cursor / size, f);
    hide Route;
    CursorDiv(size, cursor);
    MulLess(size, cursor / size, f);
  }

  lemma RouteSkip(keys: set<nat>, cf: nat, f: nat)
    requires IsMin(From(keys, cf), f)
    ensures Route(keys, cf) == Route(keys, f)
  {
    assert f in From(keys, f);
    assert Above(keys, cf) == Some(f) == Above(keys, f);
  }

  lemma SameDue(d: Directory, size: nat, start: nat, cursor: nat, visited: seq<Place>)
    requires size > 0 && Due(d, size, start) == Due(d, size, cursor) && start <= cursor
    ensures forall next :: StepOf(d, size, cursor, visited, next) ==> StepOf(d, size, start, visited, next)
  {
  }

  lemma Bounded(d: Directory, size: nat, n: nat)
    requires n > 0 && (n in d || n - 1 in d)
    ensures size * n <= size * (Top(d.Keys) + 1)
  {
    if n < Top(d.Keys) + 1 {
      MulLess(size, n, Top(d.Keys) + 1);
    }
  }

  lemma NextInside(d: Directory, size: nat, cf: nat, tc: nat, offsets: seq<nat>, tcNext: nat)
    requires cf in d && InRange(d, size) && tcNext != 0 && Scanned(d[cf], tc, offsets, tcNext)
    ensures tcNext + size * cf <= size * (Top(d.Keys) + 1)
  {
    var o :| o in From(d[cf], tcNext);
    Bounded(d, size, cf + 1);
    assert size * (cf + 1) == size * cf + size;
  }

  ghost function Top(keys: set<nat>): (m: nat)
    ensures forall k :: k in keys ==> k <= m
    decreases keys
  {
    if keys == {} then 0 else
      var k :| k in keys;
      assert keys == {k} + (keys - {k});
      var m := Top(keys - {k});
      if k >= m then k else m
  }

  /** A caller that follows the cursors from zero, with counts of its choosing, ends, and sees
      each entry on the route exactly once. */
  method ScanAll(d: Directory, size: nat, tables: nat, counts: nat -> nat) returns (ok: bool, all: seq<Place>)
    requires InRange(d, size) && (tables == 0 ==> d == map[]) && forall k :: counts(k) >= 1
    ensures ok <==> tables == 0 || size > 0
    ensures ok ==> NoRepeats(all) && forall p :: p in all <==> p in Places(d, Route(d.Keys, 0))
  {
    hide Due, Route;
    all := [];
    if size == 0 {
      var visited, next;
      ok, visited, next := ScanCommon(d, size, tables, 0, counts(0));
      return;
    }
    DueAtStart(d, size, 0);
    var call := 0;
    var cursor := 0;
    while true
      invariant NoRepeats(all)
      invariant forall p :: p in Due(d, size, 0) <==> p in all || p in Due(d, size, cursor)
      invariant forall p :: p in all ==> p !in Due(d, size, cursor)
      invariant cursor <= size * (Top(d.Keys) + 1)
      decreases size * (Top(d.Keys) + 1) - cursor
    {
      var visited, next;
      ok, visited, next := ScanCommon(d, size, tables, cursor, counts(call));
      NoRepeatsConcat(all, visited);
      all := all + visited;
      if next == 0 {
        break;
      }
      cursor := next;
      call := call + 1;
    }
  }

  lemma NoRepeatsConcat(a: seq<Place>, b: seq<Place>)
    requires NoRepeats(a) && NoRepeats(b) && forall p :: p in b ==> p !in a
    ensures NoRepeats(a + b)
    ensures forall p :: p in a + b <==> p in a || p in b
  {
    forall i, j | 0 <= i < j < |a + b|
      ensures (a + b)[i] != (a + b)[j]
    {
      if i < |a| <= j {
        assert a[i] in a && b[j - |a|] in b;
      }
    }
  }

  // When a scan is complete

  ghost predicate Contiguous(keys: set<nat>) {
    forall a, b, c :: a in keys && c in keys && a <= b <= c ==> b in keys
  }

  /** `p` is the greatest key below `k`. */
  ghost predicate Precedes(keys: set<nat>, p: nat, k: nat) {
    p in keys && p < k && forall x :: x in keys && x < k ==> x <= p
  }

  /** The keys a scan passes over, by the gaps alone: those after a gap whose predecessor was
      not passed over itself. */
  ghost predicate Missed(keys: set<nat>, k: nat)
    decreases k
  {
    exists p :: 0 <= p < k && Precedes(keys, p, k) && p + 1 < k && !Missed(keys, p)
  }

  lemma MissedBy(keys: set<nat>, p: nat, k: nat)
    requires Precedes(keys, p, k)
    ensures Missed(keys, k) <==> p + 1 < k && !Missed(keys, p)
  {
    forall q | Precedes(keys, q, k)
      ensures q == p
    {
    }
  }

  lemma LeastNotMissed(keys: set<nat>, k: nat)
    requires IsMin(keys, k)
    ensures !Missed(keys, k)
  {
  }

  lemma {:induction false} Predecessor(keys: set<nat>, x: nat, k: nat) returns (p: nat)
    requires x in keys && x < k
    ensures Precedes(keys, p, k) && x <= p
    decreases k
  {
    if k - 1 in keys {
      p := k - 1;
    } else {
      p := Predecessor(keys, x, k - 1);
    }
  }

  /** From a key that is not passed over, what is passed over depends on the keys from there. */
  lemma {:induction false} MissedFrom(keys: set<nat>, n: nat, least: nat, k: nat)
    requires IsMin(From(keys, n), least) && !Missed(keys, least) && k in From(keys, n)
    ensures Missed(keys, k) <==> Missed(From(keys, n), k)
    decreases k
  {
    if k == least {
      LeastNotMissed(From(keys, n), k);
    } else {
      var p := Predecessor(From(keys, n), least, k);
      forall x | x in keys && x < k
        ensures x <= p
      {
        assert x >= n ==> x in From(keys, n);
      }
      MissedBy(keys, p, k);
      MissedBy(From(keys, n), p, k);
      MissedFrom(keys, n, least, p);
    }
  }

  lemma FromFrom(keys: set<nat>, n: nat, m: nat)
    requires n <= m
    ensures From(From(keys, n), m) == From(keys, m)
  {
  }

  /** The least key from the successor of a key is the one after it. */
  lemma NextAfter(keys: set<nat>, p: nat, n: nat, k: nat)
    requires p in keys && n == p + 1 && IsMin(From(keys, n), k)
    ensures Precedes(keys, p, k)
  {
    forall x | x in keys && x < k
      ensures x <= p
    {
      assert x >= n ==> x in From(keys, n);
    }
  }

  /** After table `f` the cursor goes to a place whose least key is not passed over, and the
      keys in between are the one after a gap. */
  lemma OnwardFresh(keys: set<nat>, f: nat, n: nat, least: nat)
    requires IsMin(keys, f) && Onward(keys, f) == Some(n) && IsMin(From(keys, n), least)
    ensures !Missed(keys, least)
  {
    LeastNotMissed(keys, f);
    if f + 1 in keys {
      assert f + 1 in From(keys, n);
      MissedBy(keys, f, least);
    } else {
      var g := Above(keys, f + 1).value;
      NextAfter(keys, f, f + 1, g);
      MissedBy(keys, f, g);
      NextAfter(keys, g, n, least);
      MissedBy(keys, g, least);
    }
  }

  /** A key between `f` and where the cursor goes is passed over. */
  lemma OnwardPasses(keys: set<nat>, f: nat, k: nat)
    requires IsMin(keys, f) && k in keys && k > f
    requires match Onward(keys, f) case None => true case Some(n) => k < n
    ensures Missed(keys, k)
  {
    LeastNotMissed(keys, f);
    assert k in From(keys, f + 1);
    var g := Above(keys, f + 1).value;
    assert k == g;
    NextAfter(keys, f, f + 1, k);
    MissedBy(keys, f, k);
  }

  lemma SameRoute(keys: set<nat>, n: nat, m: nat)
    requires n <= m
    ensures Onward(From(keys, n), m) == Onward(keys, m)
  {
    FromFrom(keys, n, m + 1);
    if From(keys, m + 1) != {} {
      var a, b := Above(From(keys, n), m + 1).value, Above(keys, m + 1).value;
      assert a <= b && b <= a;
    }
  }

  lemma {:induction false} RouteFrom(keys: set<nat>, n: nat, k: nat)
    requires k in keys && k >= n
    ensures k in Route(keys, n) <==> !Missed(From(keys, n), k)
    decreases From(keys, n)
  {
    assert k in From(keys, n);
    var f := Above(keys, n).value;
    var rest := From(keys, n);
    RouteShrinks(keys, n, f);
    SameRoute(keys, n, f);
    if k == f {
      LeastNotMissed(rest, f);
    } else {
      match Onward(keys, f)
      case None => OnwardPasses(rest, f, k);
      case Some(m) =>
        if k < m {
          OnwardPasses(rest, f, k);
          if k in Route(keys, m) {
            RouteAbove(keys, m, k);
          }
        } else {
          RouteFrom(keys, m, k);
          FromFrom(keys, n, m);
          assert k in From(rest, m);
          var least := Above(rest, m).value;
          OnwardFresh(rest, f, m, least);
          MissedFrom(rest, m, least, k);
        }
    }
  }

  /** A key is off the route exactly when it is not the least, the key before it is not
      adjacent, and that key is on the route. */
  lemma RouteIff(keys: set<nat>, k: nat)
    requires k in keys
    ensures k in Route(keys, 0) <==> !Missed(keys, k)
    ensures k !in Route(keys, 0) <==> exists p: nat :: Precedes(keys, p, k) && p + 1 < k && p in Route(keys, 0)
  {
    assert From(keys, 0) == keys;
    RouteFrom(keys, 0, k);
    if p: nat :| Precedes(keys, p, k) {
      RouteFrom(keys, 0, p);
      MissedBy(keys, p, k);
      assert forall q: nat :: Precedes(keys, q, k) ==> q == p;
    }
  }

  lemma {:induction false} AdjacentContiguous(keys: set<nat>, a: nat, b: nat, c: nat)
    requires a in keys && c in keys && a <= b <= c
    requires forall p, k :: k in keys && Precedes(keys, p, k) ==> p + 1 == k
    ensures b in keys
    decreases c - b
  {
    if b < c {
      var p := Predecessor(keys, a, c);
      AdjacentContiguous(keys, a, b, p);
    }
  }

  /** The route is all the keys exactly when they are contiguous. */
  lemma RouteAllIff(keys: set<nat>)
    ensures Route(keys, 0) == keys <==> Contiguous(keys)
  {
    forall k | k in Route(keys, 0)
      ensures k in keys
    {
      RouteAbove(keys, 0, k);
    }
    if Contiguous(keys) {
      forall k | k in keys
        ensures k in Route(keys, 0)
      {
        RouteIff(keys, k);
        assert forall p: nat :: Precedes(keys, p, k) ==> p <= k - 1 <= k && k - 1 in keys;
      }
    }
    if Route(keys, 0) == keys {
      forall p, k | k in keys && Precedes(keys, p, k)
        ensures p + 1 == k
      {
        RouteIff(keys, k);
      }
      forall a, b, c | a in keys && c in keys && a <= b <= c
        ensures b in keys
      {
        AdjacentContiguous(keys, a, b, c);
      }
    }
  }

  /** A scan sees every indexed entry exactly when each table it passes over, by the gaps of
      the index, is empty. */
  lemma CompleteIff(d: Directory)
    ensures (forall p :: p in Places(d, d.Keys) ==> p in Places(d, Route(d.Keys, 0)))
            <==> forall cf :: cf in d && Missed(d.Keys, cf) ==> d[cf] == {}
  {
    forall cf | cf in d
      ensures cf in Route(d.Keys, 0) <==> !Missed(d.Keys, cf)
    {
      RouteIff(d.Keys, cf);
    }
    hide Missed, Route;
    forall cf | cf in d && Missed(d.Keys, cf) && d[cf] != {}
      ensures exists p: Place :: p in Places(d, d.Keys) && p !in Places(d, Route(d.Keys, 0))
    {
      var o :| o in d[cf];
      assert Place(cf, o) in Places(d, d.Keys) && Place(cf, o) !in Places(d, Route(d.Keys, 0));
    }
  }

  /** So contiguous coefficients are what makes every scan complete, whatever the tables hold. */
  lemma AlwaysCompleteIff(keys: set<nat>)
    ensures (forall d: Directory :: d.Keys == keys ==>
               forall p :: p in Places(d, keys) ==> p in Places(d, Route(keys, 0))) <==> Contiguous(keys)
  {
    RouteAllIff(keys);
    if !Contiguous(keys) {
      forall k | k in Route(keys, 0)
        ensures k in keys
      {
        RouteAbove(keys, 0, k);
      }
      var k :| k in keys && k !in Route(keys, 0);
      var d: Directory := map x | x in keys :: {0};
      assert d.Keys == keys;
      assert Place(k, 0) in Places(d, keys) && Place(k, 0) !in Places(d, Route(keys, 0));
    }
  }

  /** With tables 0 and 2 the cursor after table 0 is put past table 2. */
  lemma GapSkips()
    ensures Route({0, 2}, 0) == {0}
  {
    var keys := {0, 2};
    RouteIff(keys, 0);
    RouteIff(keys, 2);
    assert Precedes(keys, 0, 2);
    forall k | k in Route(keys, 0)
      ensures k in keys
    {
      RouteAbove(keys, 0, k);
    }
  }
}
