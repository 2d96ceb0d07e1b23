/** The new-release check of one monitor cycle (main.py, the loop at the
    start of `monitor_new_releases`): walk the listing in page order, and
    every record whose key is not yet in the seen-set is added to the set
    and to the list of new releases. */
module Detection {
  import opened Releases

  /** The outcome of a check: the new releases in page order and the grown
      seen-set. */
  datatype Cycle = Cycle(newReleases: seq<Release>, seen: set<string>)

  /** The keys of a list of records. */
  function Keys(rs: seq<Release>): set<string> {
    set r | r in rs :: r.key
  }

  predicate DistinctKeys(rs: seq<Release>) {
    forall i, j :: 0 <= i < j < |rs| ==> rs[i].key != rs[j].key
  }

  lemma KeysSnoc(rs: seq<Release>, r: Release)
    ensures Keys(rs + [r]) == Keys(rs) + {r.key}
  {
  }

  /** The state of the loop once it has gone through all of `rs`, starting
      from the seen-set `seen`: the state after the prefix without the last
      record, followed by one more iteration. */
  function Detect(seen: set<string>, rs: seq<Release>): (c: Cycle)
    ensures c.seen == seen + Keys(rs)
    ensures Keys(c.newReleases) == Keys(rs) - seen
    decreases |rs|
  {
    if rs == [] then Cycle([], seen)
    else
      var n := |rs| - 1;
      var prev := Detect(seen, rs[..n]);
      var r := rs[n];
      KeysSnoc(rs[..n], r);
      assert rs[..n] + [r] == rs;
      if r.key !in prev.seen then
        var newReleases := prev.newReleases + [r];
        KeysSnoc(prev.newReleases, r);
        Cycle(newReleases, prev.seen + {r.key})
      else
        prev
  }

  /** The new releases have pairwise distinct keys, none of them in the old
      seen-set, and the seen-set grows by exactly their number. */
  lemma {:induction false} NewReleasesAreUnseenAndDistinct(seen: set<string>, rs: seq<Release>)
    ensures var c := Detect(seen, rs);
            && DistinctKeys(c.newReleases)
            && (forall k :: 0 <= k < |c.newReleases| ==> c.newReleases[k].key !in seen && c.newReleases[k] in rs)
            && |c.seen| == |seen| + |c.newReleases|
    decreases |rs|
  {
    if rs != [] {
      var n := |rs| - 1;
      var prev := Detect(seen, rs[..n]);
      NewReleasesAreUnseenAndDistinct(seen, rs[..n]);
      var r := rs[n];
      if r.key !in prev.seen {
        var c := Detect(seen, rs);
        assert c.newReleases == prev.newReleases + [r];
        forall i, j | 0 <= i < j < |c.newReleases|
          ensures c.newReleases[i].key != c.newReleases[j].key
        {
          if j == |prev.newReleases| {
            assert c.newReleases[i] == prev.newReleases[i];
            assert prev.newReleases[i].key in Keys(prev.newReleases);
          }
        }
      }
    }
  }

  /** The seen-set changes exactly when something new was found, which is
      why the source persists it only then. */
  lemma SeenChangesIffNew(seen: set<string>, rs: seq<Release>)
    ensures var c := Detect(seen, rs);
            c.seen != seen <==> c.newReleases != []
  {
  }

  /** Record `i` of `rs` is reported as new exactly when its key is unseen
      and no earlier record of the listing has the same key. */
  predicate FreshAt(seen: set<string>, rs: seq<Release>, i: nat)
    requires i < |rs|
  {
    rs[i].key !in seen && forall j :: 0 <= j < i ==> rs[j].key != rs[i].key
  }

  /** The records at the positions where `FreshAt` holds, in page order:
      the subsequence of first sightings of unseen keys. */
  function FirstSightings(seen: set<string>, rs: seq<Release>): seq<Release>
    decreases |rs|
  {
    if rs == [] then []
    else
      var n := |rs| - 1;
      FirstSightings(seen, rs[..n]) + (if FreshAt(seen, rs, n) then [rs[n]] else [])
  }

  /** The last record of `rs` is a first sighting exactly when its key is not
      in the seen-set grown over the records before it. */
  lemma FreshAtLast(seen: set<string>, rs: seq<Release>)
    requires rs != []
    ensures FreshAt(seen, rs, |rs| - 1) <==> rs[|rs| - 1].key !in seen + Keys(rs[..|rs| - 1])
  {
  }

  /** The functional model of the loop reports exactly the first sightings
      of unseen keys, in page order. */
  lemma {:induction false} DetectIsFirstSightings(seen: set<string>, rs: seq<Release>)
    ensures Detect(seen, rs).newReleases == FirstSightings(seen, rs)
    decreases |rs|
  {
    if rs != [] {
      var n := |rs| - 1;
      DetectIsFirstSightings(seen, rs[..n]);
      FreshAtLast(seen, rs);
    }
  }

  /** One more iteration of the loop over `rs[..i]`: record `i` is a first
      sighting exactly when its key is not in the seen-set grown so far. */
  lemma FirstSightingsStep(seen: set<string>, rs: seq<Release>, i: nat)
    requires i < |rs|
    ensures FirstSightings(seen, rs[..i + 1]) ==
      FirstSightings(seen, rs[..i]) + (if rs[i].key !in seen + Keys(rs[..i]) then [rs[i]] else [])
    ensures Keys(rs[..i + 1]) == Keys(rs[..i]) + {rs[i].key}
  {
    var prefix := rs[..i + 1];
    assert prefix[..i] == rs[..i];
    assert prefix == rs[..i] + [rs[i]];
    FreshAtLast(seen, prefix);
  }

  /** The loop of the source, statement for statement. */
  method RunDetection(seen0: set<string>, releases: seq<Release>)
    returns (newReleases: seq<Release>, seen: set<string>)
    ensures newReleases == FirstSightings(seen0, releases)
    ensures seen == seen0 + Keys(releases)
  {
    newReleases := [];
    seen := seen0;
    var i := 0;
    while i < |releases|
      invariant 0 <= i <= |releases|
      invariant newReleases == FirstSightings(seen0, releases[..i])
      invariant seen == seen0 + Keys(releases[..i])
    {
      var release := releases[i];
      FirstSightingsStep(seen0, releases, i);
      if release.key !in seen {
        seen := seen + {release.key};
        newReleases := newReleases + [release];
      }
      i := i + 1;
    }
    assert releases[..i] == releases;
  }

  /** When every key of the listing is already known, the check reports
      nothing and leaves the seen-set as it was. */
  lemma AllSeenIsNoOp(seen: set<string>, rs: seq<Release>)
    requires Keys(rs) <= seen
    ensures Detect(seen, rs) == Cycle([], seen)
  {
  }

  /** Running the check again on the same listing with the grown seen-set
      finds nothing new and changes nothing. */
  lemma DetectIdempotent(seen: set<string>, rs: seq<Release>)
    ensures var c := Detect(seen, rs);
            Detect(c.seen, rs) == Cycle([], c.seen)
  {
    AllSeenIsNoOp(Detect(seen, rs).seen, rs);
  }

  /** The seen-set only grows. */
  lemma SeenGrows(seen: set<string>, rs: seq<Release>)
    ensures seen <= Detect(seen, rs).seen
    ensures |seen| <= |Detect(seen, rs).seen|
  {
  }

  /** Starting from an empty seen-set, a listing with distinct keys is
      reported in full. */
  lemma {:induction false} FirstRunReportsAll(rs: seq<Release>)
    requires DistinctKeys(rs)
    ensures FirstSightings({}, rs) == rs
    decreases |rs|
  {
    if rs != [] {
      var n := |rs| - 1;
      assert DistinctKeys(rs[..n]);
      FirstRunReportsAll(rs[..n]);
      assert FreshAt({}, rs, n);
      assert rs[..n] + [rs[n]] == rs;
    }
  }
}
