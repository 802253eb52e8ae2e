/**
 * Reconciling the server's sample list with the browser's: the `Map`-based
 * merge inside `syncFromServer` (src/context/AudioSampleContext.jsx:82-95).
 * The server copy of an id wins, the browser's inline `dataUrl` copy is
 * carried over where the server record has none, and browser-only samples
 * are kept after the server's.
 */
module SampleMerge {

  import opened Wrappers
  import opened Samples
  import opened FirstOccurrence

  /** A JavaScript `Map` from sample ids to samples: its keys in insertion order and its entries. */
  datatype IdMap = IdMap(keys: seq<string>, vals: map<string, Sample>)

  ghost predicate Valid(m: IdMap) {
    && Distinct(m.keys)
    && (forall k :: k in m.vals <==> k in m.keys)
    && (forall k :: k in m.vals ==> m.vals[k].id == k)
  }

  const Empty := IdMap([], map[])

  /** `map.set(k, v)`: a new key goes last, an existing key keeps its place and gets the new value. */
  function Put(m: IdMap, k: string, v: Sample): (r: IdMap)
    requires Valid(m) && v.id == k
    ensures Valid(r)
    ensures r.vals == m.vals[k := v]
    ensures r.keys == if k in m.vals then m.keys else m.keys + [k]
  {
    if k in m.vals then IdMap(m.keys, m.vals[k := v])
    else IdMap(m.keys + [k], m.vals[k := v])
  }

  /** `Array.from(map.values())`: the entries in key order. */
  function Values(m: IdMap): (r: seq<Sample>)
    requires Valid(m)
    ensures |r| == |m.keys|
    ensures forall i :: 0 <= i < |r| ==> r[i] == m.vals[m.keys[i]]
    ensures Ids(r) == m.keys
  {
    seq(|m.keys|, i requires 0 <= i < |m.keys| => m.vals[m.keys[i]])
  }

  /** The first loop: every server sample is set under its id, so a later duplicate overwrites an earlier one. */
  function LoadServer(server: seq<Sample>): (m: IdMap)
    ensures Valid(m)
    decreases |server|
  {
    if server == [] then Empty
    else
      var s := server[|server| - 1];
      Put(LoadServer(server[..|server| - 1]), s.id, s)
  }

  /**
   * One step of the second loop: an unknown id is added; a known id whose
   * entry has no usable `dataUrl` takes this sample's `dataUrl` when it has
   * one; otherwise nothing changes.
   */
  function AbsorbOne(m: IdMap, s: Sample): (r: IdMap)
    requires Valid(m)
    ensures Valid(r)
  {
    if s.id !in m.vals then Put(m, s.id, s)
    else if Present(s.dataUrl) && !Present(m.vals[s.id].dataUrl) then
      Put(m, s.id, m.vals[s.id].(dataUrl := s.dataUrl))
    else m
  }

  /** The second loop over the browser's previous list. */
  function Absorb(m: IdMap, prev: seq<Sample>): (r: IdMap)
    requires Valid(m)
    ensures Valid(r)
    decreases |prev|
  {
    if prev == [] then m
    else AbsorbOne(Absorb(m, prev[..|prev| - 1]), prev[|prev| - 1])
  }

  /** The list `syncFromServer` installs, given the server's samples and the previous local list. */
  function Merged(server: seq<Sample>, prev: seq<Sample>): seq<Sample> {
    Values(Absorb(LoadServer(server), prev))
  }

  /** The first `forEach`: every server sample is set under its id. */
  method LoadServerLoop(server: seq<Sample>) returns (m: IdMap)
    ensures m == LoadServer(server)
  {
    var keys: seq<string> := [];
    var vals: map<string, Sample> := map[];
    for i := 0 to |server|
      invariant IdMap(keys, vals) == LoadServer(server[..i])
    {
      var s := server[i];
      ghost var before := IdMap(keys, vals);
      if s.id !in vals {
        keys := keys + [s.id];
      }
      vals := vals[s.id := s];
      assert IdMap(keys, vals) == Put(before, s.id, s);
      assert server[..i + 1][..i] == server[..i];
    }
    assert server[..|server|] == server;
    m := IdMap(keys, vals);
  }

  /** The second `forEach`: unknown local ids are added and missing inline copies filled in. */
  method AbsorbLoop(m: IdMap, prev: seq<Sample>) returns (r: IdMap)
    requires Valid(m)
    ensures r == Absorb(m, prev)
  {
    var keys, vals := m.keys, m.vals;
    for i := 0 to |prev|
      invariant Valid(IdMap(keys, vals))
      invariant IdMap(keys, vals) == Absorb(m, prev[..i])
    {
      var s := prev[i];
      ghost var before := IdMap(keys, vals);
      if s.id !in vals {
        keys := keys + [s.id];
        vals := vals[s.id := s];
      } else if Present(s.dataUrl) && !Present(vals[s.id].dataUrl) {
        vals := vals[s.id := vals[s.id].(dataUrl := s.dataUrl)];
      }
      assert IdMap(keys, vals) == AbsorbOne(before, s);
      assert prev[..i + 1][..i] == prev[..i];
    }
    assert prev[..|prev|] == prev;
    r := IdMap(keys, vals);
  }

  /** The merge as the source runs it: two loops filling a map, then its values. */
  method Merge(server: seq<Sample>, prev: seq<Sample>) returns (r: seq<Sample>)
    ensures r == Merged(server, prev)
  {
    var m := LoadServerLoop(server);
    m := AbsorbLoop(m, prev);
    r := Values(m);
  }

  // ---------------------------------------------------------------------
  // A reference description of the merged list, without maps.
  // ---------------------------------------------------------------------

  /** The position of the last sample with id `k`. */
  function LastIndex(s: seq<Sample>, k: string): (i: nat)
    requires k in Ids(s)
    ensures i < |s| && s[i].id == k
    ensures forall j :: i < j < |s| ==> s[j].id != k
    decreases |s|
  {
    var n := |s| - 1;
    if s[n].id == k then n
    else
      assert Ids(s) == Ids(s[..n]) + [s[n].id];
      LastIndex(s[..n], k)
  }

  /** The last sample with id `k`. */
  function LastWith(s: seq<Sample>, k: string): Sample
    requires k in Ids(s)
  {
    s[LastIndex(s, k)]
  }

  /** The first sample with id `k`. */
  function FirstWith(s: seq<Sample>, k: string): Sample
    requires k in Ids(s)
  {
    s[IndexOf(Ids(s), k)]
  }

  /** The position of the first sample with id `k` that has a usable `dataUrl`, if any. */
  function FirstUrlIndex(s: seq<Sample>, k: string): (r: Option<nat>)
    ensures r.Some? ==> r.value < |s| && s[r.value].id == k && Present(s[r.value].dataUrl)
    ensures r.Some? ==> forall j :: 0 <= j < r.value && s[j].id == k ==> !Present(s[j].dataUrl)
    ensures r.None? ==> forall j :: 0 <= j < |s| && s[j].id == k ==> !Present(s[j].dataUrl)
    decreases |s|
  {
    if s == [] then None
    else
      var n := |s| - 1;
      var u := FirstUrlIndex(s[..n], k);
      if u.Some? then u
      else if s[n].id == k && Present(s[n].dataUrl) then Some(n)
      else None
  }

  /** The `dataUrl` of the first sample with id `k` that has a usable one. */
  function FirstUrl(s: seq<Sample>, k: string): Option<string> {
    match FirstUrlIndex(s, k)
    case Some(i) => s[i].dataUrl
    case None => None
  }

  /** A sample without a usable `dataUrl` takes `u` when there is one. */
  function Backfill(v: Sample, u: Option<string>): Sample {
    if Present(v.dataUrl) || u.None? then v else v.(dataUrl := u)
  }

  /**
   * The merged entry for id `k`: the last server sample with that id, or
   * else the first local one, given the first usable local `dataUrl` for
   * that id if it has none.
   */
  function Expected(server: seq<Sample>, prev: seq<Sample>, k: string): Sample
    requires k in Ids(server) || k in Ids(prev)
  {
    Backfill(if k in Ids(server) then LastWith(server, k) else FirstWith(prev, k), FirstUrl(prev, k))
  }

  lemma IdsSplit(s: seq<Sample>)
    requires s != []
    ensures Ids(s) == Ids(s[..|s| - 1]) + [s[|s| - 1].id]
  {
  }

  lemma FirstWithAppend(s: seq<Sample>, x: Sample, k: string)
    requires k in Ids(s + [x])
    ensures k in Ids(s) ==> FirstWith(s + [x], k) == FirstWith(s, k)
    ensures k !in Ids(s) ==> FirstWith(s + [x], k) == x
  {
    assert Ids(s + [x]) == Ids(s) + [x.id];
    IndexOfAppend(Ids(s), x.id, k);
  }

  /** The first loop keeps each server id once, in order of first appearance, holding its last sample. */
  lemma {:induction false} LoadServerSpec(server: seq<Sample>)
    ensures var m := LoadServer(server);
      && m.keys == Dedup(Ids(server))
      && (forall k :: k in m.vals <==> k in Ids(server))
      && (forall k :: k in m.vals ==> m.vals[k] == LastWith(server, k))
    decreases |server|
  {
    if server != [] {
      var n := |server| - 1;
      var init := server[..n];
      LoadServerSpec(init);
      IdsSplit(server);
      assert Ids(server)[..n] == Ids(init);
    }
  }

  /** The entry an id starts from in the second loop: the existing one, or else the first local sample. */
  function Base(m: IdMap, prev: seq<Sample>, k: string): Sample
    requires k in m.vals || k in Ids(prev)
  {
    if k in m.vals then m.vals[k] else FirstWith(prev, k)
  }

  /**
   * What the second loop has done after `prev`, started from `m`: the new
   * ids are appended in order of first appearance and every entry is its
   * base entry backfilled with the first usable local `dataUrl`.
   */
  ghost predicate AbsorbedFrom(r: IdMap, m: IdMap, prev: seq<Sample>) {
    && r.keys == Extend(m.keys, Ids(prev))
    && (forall k :: k in r.vals <==> k in m.vals || k in Ids(prev))
    && (forall k :: k in r.vals ==> r.vals[k] == Backfill(Base(m, prev, k), FirstUrl(prev, k)))
  }

  lemma FirstUrlAppend(s: seq<Sample>, x: Sample, k: string)
    ensures FirstUrl(s + [x], k) ==
      if FirstUrl(s, k).Some? then FirstUrl(s, k)
      else if x.id == k && Present(x.dataUrl) then x.dataUrl else None
  {
    assert (s + [x])[..|s|] == s;
  }

  lemma AbsorbStep(q: IdMap, m: IdMap, init: seq<Sample>, s: Sample)
    requires Valid(m) && Valid(q) && AbsorbedFrom(q, m, init)
    ensures AbsorbedFrom(AbsorbOne(q, s), m, init + [s])
  {
    var prev := init + [s];
    var r := AbsorbOne(q, s);
    IdsSplit(prev);
    assert prev[..|prev| - 1] == init;
    assert Ids(prev)[..|init|] == Ids(init);
    assert r.keys == Extend(m.keys, Ids(prev));
    assert forall k :: k in Ids(prev) <==> k in Ids(init) || k == s.id;
    forall k | k in r.vals
      ensures r.vals[k] == Backfill(Base(m, prev, k), FirstUrl(prev, k))
    {
      AbsorbStepAt(q, m, init, s, k);
    }
  }

  /** One entry of `AbsorbStep`. */
  lemma AbsorbStepAt(q: IdMap, m: IdMap, init: seq<Sample>, s: Sample, k: string)
    requires Valid(m) && Valid(q)
    requires k in q.vals <==> k in m.vals || k in Ids(init)
    requires k in q.vals ==> q.vals[k] == Backfill(Base(m, init, k), FirstUrl(init, k))
    requires k in AbsorbOne(q, s).vals
    ensures k in m.vals || k in Ids(init + [s])
    ensures AbsorbOne(q, s).vals[k] == Backfill(Base(m, init + [s], k), FirstUrl(init + [s], k))
  {
    var prev := init + [s];
    assert Ids(prev) == Ids(init) + [s.id];
    FirstUrlAppend(init, s, k);
    if k !in m.vals {
      FirstWithAppend(init, s, k);
    }
    var r := AbsorbOne(q, s);
    if k != s.id {
      assert r.vals[k] == q.vals[k];
    } else if k !in q.vals {
      assert r.vals[k] == s;
    } else {
      var b := Base(m, init, k);
      assert Base(m, prev, k) == b;
      if Present(s.dataUrl) && !Present(q.vals[k].dataUrl) {
        assert FirstUrl(init, k).None?;
        assert !Present(b.dataUrl);
      }
    }
  }

  lemma {:induction false} AbsorbSpec(m: IdMap, prev: seq<Sample>)
    requires Valid(m)
    ensures AbsorbedFrom(Absorb(m, prev), m, prev)
    decreases |prev|
  {
    if prev == [] {
      forall k | k in m.vals ensures FirstUrl(prev, k) == None {}
    } else {
      var n := |prev| - 1;
      AbsorbSpec(m, prev[..n]);
      assert prev == prev[..n] + [prev[n]];
      AbsorbStep(Absorb(m, prev[..n]), m, prev[..n], prev[n]);
    }
  }

  /** The merged ids: the server's ids first, then the local-only ones, each once. */
  lemma MergedIds(server: seq<Sample>, prev: seq<Sample>)
    ensures Ids(Merged(server, prev)) == Dedup(Ids(server) + Ids(prev))
    ensures Ids(Merged(server, prev)) == Extend(Dedup(Ids(server)), Ids(prev))
  {
    LoadServerSpec(server);
    AbsorbSpec(LoadServer(server), prev);
    ExtendAppend([], Ids(server), Ids(prev));
  }

  /** Every merged entry is the one the reference description gives for its id. */
  lemma MergedEntries(server: seq<Sample>, prev: seq<Sample>)
    ensures forall i :: 0 <= i < |Merged(server, prev)| ==>
      var k := Merged(server, prev)[i].id;
      (k in Ids(server) || k in Ids(prev)) && Merged(server, prev)[i] == Expected(server, prev, k)
  {
    var m := LoadServer(server);
    LoadServerSpec(server);
    AbsorbSpec(m, prev);
    var r := Absorb(m, prev);
    forall i | 0 <= i < |Merged(server, prev)|
      ensures var k := Merged(server, prev)[i].id;
        (k in Ids(server) || k in Ids(prev)) && Merged(server, prev)[i] == Expected(server, prev, k)
    {
      var k := r.keys[i];
      assert Merged(server, prev)[i] == r.vals[k];
    }
  }

  /** Completeness: every id of either list appears in the merged list, exactly once, and no other id does. */
  lemma MergedMembers(server: seq<Sample>, prev: seq<Sample>)
    ensures Distinct(Ids(Merged(server, prev)))
    ensures forall k :: k in Ids(Merged(server, prev)) <==> k in Ids(server) || k in Ids(prev)
  {
    MergedIds(server, prev);
    ExtendSpec([], Ids(server) + Ids(prev));
  }

  /**
   * Order: the server's ids come first, in the server's order; after them
   * the ids only the browser had, in the order of their first local
   * appearance.
   */
  lemma MergedOrder(server: seq<Sample>, prev: seq<Sample>)
    ensures var m := Merged(server, prev); var a := Dedup(Ids(server));
      && |a| <= |m| && Ids(m)[..|a|] == a
      && (forall i :: |a| <= i < |m| ==> m[i].id !in Ids(server) && m[i].id in Ids(prev))
      && (forall i, j :: |a| <= i < j < |m| ==> IndexOf(Ids(prev), m[i].id) < IndexOf(Ids(prev), m[j].id))
  {
    var m := Merged(server, prev);
    var a := Dedup(Ids(server));
    MergedIds(server, prev);
    ExtendSpec([], Ids(server));
    ExtendSpec(a, Ids(prev));
    assert forall i :: 0 <= i < |m| ==> Ids(m)[i] == m[i].id;
  }

  /**
   * The entry for one id: the server record when the server has the id
   * (its last copy), else the first local record; a base entry without a
   * usable `dataUrl` takes the first usable local one for that id, and
   * nothing else about it changes.
   */
  lemma MergedEntry(server: seq<Sample>, prev: seq<Sample>, i: nat)
    requires i < |Merged(server, prev)|
    ensures Merged(server, prev)[i].id in Ids(server) || Merged(server, prev)[i].id in Ids(prev)
    ensures var e := Merged(server, prev)[i]; var k := e.id;
      var b := if k in Ids(server) then LastWith(server, k) else FirstWith(prev, k);
      var u := FirstUrlIndex(prev, k);
      && (Present(b.dataUrl) || u.None? ==> e == b)
      && (!Present(b.dataUrl) && u.Some? ==> e == b.(dataUrl := prev[u.value].dataUrl))
  {
    MergedEntries(server, prev);
  }

  /** In a list without repeated ids, the first record and first usable `dataUrl` of an id are its only record's. */
  lemma UniqueEntry(m: seq<Sample>, i: nat)
    requires Distinct(Ids(m)) && i < |m|
    ensures m[i].id in Ids(m) && FirstWith(m, m[i].id) == m[i]
    ensures FirstUrl(m, m[i].id) == if Present(m[i].dataUrl) then m[i].dataUrl else None
  {
    assert Ids(m)[i] == m[i].id;
    var j := IndexOf(Ids(m), m[i].id);
    assert j == i;
    var u := FirstUrlIndex(m, m[i].id);
    if u.Some? {
      assert Ids(m)[u.value] == Ids(m)[i];
    }
  }

  /** A second merge with the server reproduces each entry of the first. */
  lemma ExpectedStable(server: seq<Sample>, prev: seq<Sample>, m: seq<Sample>, i: nat)
    requires Distinct(Ids(m)) && i < |m|
    requires m[i].id in Ids(server) || m[i].id in Ids(prev)
    requires m[i] == Expected(server, prev, m[i].id)
    ensures m[i].id in Ids(m)
    ensures Expected(server, m, m[i].id) == m[i]
  {
    UniqueEntry(m, i);
  }

  /**
   * Idempotence: merging the same server list into the merged list changes
   * nothing, so a repeated sync is harmless.
   */
  lemma MergeIdempotent(server: seq<Sample>, prev: seq<Sample>)
    ensures Merged(server, Merged(server, prev)) == Merged(server, prev)
  {
    var m := Merged(server, prev);
    var m2 := Merged(server, m);
    MergedIdsStable(server, prev);
    MergedMembers(server, prev);
    MergedEntries(server, prev);
    MergedEntries(server, m);
    forall i | 0 <= i < |m| ensures m2[i] == m[i] {
      assert Ids(m2)[i] == Ids(m)[i];
      ExpectedStable(server, prev, m, i);
    }
  }

  /** The id sequence of a second merge is that of the first. */
  lemma MergedIdsStable(server: seq<Sample>, prev: seq<Sample>)
    ensures Ids(Merged(server, Merged(server, prev))) == Ids(Merged(server, prev))
  {
    MergedIds(server, prev);
    MergedIds(server, Merged(server, prev));
    ExtendSpec([], Ids(server));
    ExtendTwice(Dedup(Ids(server)), Ids(prev));
  }
}
