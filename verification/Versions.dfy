/** The versions of a key gathered by a read, newest first. */
module Versions {
  import opened Codec

  /** A copy of a key: the write's timestamp and its value. */
  datatype Copy = Copy(timestamp: int, value: seq<Byte>)

  /** What a node answered; no entry is a nil version. */
  datatype Version = Version(host: nat, entry: Option<Copy>)

  function Present(vs: seq<Version>): seq<Version> {
    if vs == [] then []
    else if vs[0].entry.Some? then [vs[0]] + Present(vs[1..])
    else Present(vs[1..])
  }

  predicate AllPresent(vs: seq<Version>) {
    forall i :: 0 <= i < |vs| ==> vs[i].entry.Some?
  }

  function Stamp(v: Version): int {
    if v.entry.Some? then v.entry.value.timestamp else 0
  }

  predicate NewestFirst(vs: seq<Version>) {
    forall i, j :: 0 <= i < j < |vs| ==> Stamp(vs[i]) >= Stamp(vs[j])
  }

  /** The versions of one timestamp, in their order. */
  function Stamped(vs: seq<Version>, t: int): seq<Version> {
    if vs == [] then []
    else if Stamp(vs[0]) == t then [vs[0]] + Stamped(vs[1..], t)
    else Stamped(vs[1..], t)
  }

  /** Before every version that is not newer. */
  function InsertStable(v: Version, vs: seq<Version>): seq<Version> {
    if vs == [] || Stamp(v) >= Stamp(vs[0]) then [v] + vs else [vs[0]] + InsertStable(v, vs[1..])
  }

  /** sort.SliceStable, descending by timestamp. */
  function SortStable(vs: seq<Version>): seq<Version> {
    if vs == [] then [] else InsertStable(vs[0], SortStable(vs[1..]))
  }

  lemma {:induction false} InsertStableOrders(v: Version, vs: seq<Version>)
    requires NewestFirst(vs)
    ensures NewestFirst(InsertStable(v, vs))
    ensures InsertStable(v, vs) != []
    ensures InsertStable(v, vs)[0] == if vs == [] || Stamp(v) >= Stamp(vs[0]) then v else vs[0]
  {
    if vs != [] && Stamp(v) < Stamp(vs[0]) {
      InsertStableOrders(v, vs[1..]);
      var r := InsertStable(v, vs[1..]);
      assert Stamp(r[0]) <= Stamp(vs[0]);
      forall j | 0 <= j < |r|
        ensures Stamp(vs[0]) >= Stamp(r[j])
      {
        assert j > 0 ==> Stamp(r[0]) >= Stamp(r[j]);
      }
    }
  }

  lemma {:induction false} InsertStableAdds(v: Version, vs: seq<Version>)
    ensures multiset(InsertStable(v, vs)) == multiset{v} + multiset(vs)
  {
    if vs != [] && Stamp(v) < Stamp(vs[0]) {
      InsertStableAdds(v, vs[1..]);
      assert vs == [vs[0]] + vs[1..];
    }
  }

  lemma {:induction false} InsertStableKeeps(v: Version, vs: seq<Version>, t: int)
    ensures Stamped(InsertStable(v, vs), t) == if Stamp(v) == t then [v] + Stamped(vs, t) else Stamped(vs, t)
  {
    if vs == [] || Stamp(v) >= Stamp(vs[0]) {
      assert ([v] + vs)[1..] == vs;
    } else {
      InsertStableKeeps(v, vs[1..], t);
      var rest := InsertStable(v, vs[1..]);
      assert ([vs[0]] + rest)[1..] == rest;
    }
  }

  /** The sort orders newest first, loses nothing, and keeps the order of equal timestamps. */
  lemma {:induction false} SortStableSorts(vs: seq<Version>, t: int)
    ensures NewestFirst(SortStable(vs))
    ensures multiset(SortStable(vs)) == multiset(vs)
    ensures Stamped(SortStable(vs), t) == Stamped(vs, t)
  {
    if vs != [] {
      SortStableSorts(vs[1..], t);
      InsertStableOrders(vs[0], SortStable(vs[1..]));
      InsertStableAdds(vs[0], SortStable(vs[1..]));
      InsertStableKeeps(vs[0], SortStable(vs[1..]), t);
      assert vs == [vs[0]] + vs[1..];
    }
  }

  lemma {:induction false} PresentIs(vs: seq<Version>, v: Version)
    ensures AllPresent(Present(vs))
    ensures v in Present(vs) <==> v in vs && v.entry.Some?
  {
    if vs != [] {
      PresentIs(vs[1..], v);
      assert vs == [vs[0]] + vs[1..];
    }
  }

  /** The newest of the versions; of equal ones, the one that was looked up first. */
  lemma WinnerIsNewest(vs: seq<Version>)
    requires Present(vs) != []
    ensures var w := SortStable(Present(vs)); w != [] && w[0] in vs && w[0].entry.Some?
    ensures forall v :: v in vs && v.entry.Some? ==> Stamp(v) <= Stamp(SortStable(Present(vs))[0])
    ensures var w := SortStable(Present(vs))[0]; Stamped(Present(vs), Stamp(w)) != [] && Stamped(Present(vs), Stamp(w))[0] == w
  {
    var ps := Present(vs);
    var ws := SortStable(ps);
    SortStableSorts(ps, 0);
    assert |multiset(ws)| == |ws| && |multiset(ps)| == |ps|;
    SortStableSorts(ps, Stamp(ws[0]));
    assert ws[0] in multiset(ps);
    PresentIs(vs, ws[0]);
    forall v | v in vs && v.entry.Some?
      ensures Stamp(v) <= Stamp(ws[0])
    {
      PresentIs(vs, v);
      assert v in multiset(ws);
      var j :| 0 <= j < |ws| && ws[j] == v;
      assert j > 0 ==> Stamp(ws[0]) >= Stamp(ws[j]);
    }
  }

  lemma OneIsSorted(vs: seq<Version>)
    requires |vs| <= 1
    ensures SortStable(vs) == vs
  {
    if vs != [] {
      assert vs[1..] == [] && vs == [vs[0]];
    }
  }

  /** sanitizeAndSortVersions. */
  method SanitizeAndSort(versions: seq<Version>) returns (r: seq<Version>)
    ensures r == SortStable(Present(versions))
  {
    var sanitized: seq<Version> := [];
    var i := 0;
    while i < |versions|
      invariant i <= |versions|
      invariant sanitized + Present(versions[i..]) == Present(versions)
    {
      assert versions[i..][1..] == versions[i + 1..];
      if versions[i].entry != None {
        sanitized := sanitized + [versions[i]];
      }
      i := i + 1;
    }
    assert versions[i..] == [] && sanitized + [] == sanitized;
    if |sanitized| <= 1 {
      OneIsSorted(sanitized);
      return sanitized;
    }
    r := SortStable(sanitized);
  }
}
