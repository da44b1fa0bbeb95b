/** The fan-out over the configured repositories (main.rs lines 40-84), run
    here as one refresh after another in list order. The source spawns one
    task per repository and waits for all of them; the lemmas below show that
    when no two repositories share a path, running them in sequence gives
    every repository exactly the result it would get alone, so the order
    (and hence any interleaving of whole refreshes) does not matter. */
module Fleet {
  import opened Paths
  import opened Fs
  import opened Swap

  /** The targets of the configured repositories, in configuration order. */
  function TargetsOf(output: Path, urls: seq<string>): (ts: seq<Target>)
    ensures |ts| == |urls|
    ensures forall k :: 0 <= k < |urls| ==> ts[k] == TargetOf(output, urls[k])
  {
    seq(|urls|, k requires 0 <= k < |urls| => TargetOf(output, urls[k]))
  }

  /** The filesystem after refreshing `ts` in order with outcomes `trs`. */
  function FleetEffect(m: Entries, ts: seq<Target>, trs: seq<Trace>): Entries
    requires |ts| == |trs|
  {
    if |ts| == 0 then m
    else Effect(FleetEffect(m, ts[..|ts| - 1], trs[..|trs| - 1]), ts[|ts| - 1], trs[|trs| - 1])
  }

  /** The filesystem calls of refreshing `ts` in order with outcomes `trs`. */
  function FleetCalls(ts: seq<Target>, trs: seq<Trace>): seq<Call>
    requires |ts| == |trs|
  {
    if |ts| == 0 then []
    else FleetCalls(ts[..|ts| - 1], trs[..|trs| - 1]) + Calls(ts[|ts| - 1], trs[|trs| - 1])
  }

  /** Each outcome in `trs` is possible for its refresh, given what the
      refreshes before it left behind. */
  predicate FleetAdmissible(m: Entries, ts: seq<Target>, trs: seq<Trace>)
    requires |ts| == |trs|
  {
    |ts| == 0 ||
    (FleetAdmissible(m, ts[..|ts| - 1], trs[..|trs| - 1]) &&
     Admissible(FleetEffect(m, ts[..|ts| - 1], trs[..|trs| - 1]), ts[|ts| - 1], trs[|trs| - 1]))
  }

  /** No path is used by two different targets. */
  predicate Disjoint(ts: seq<Target>) {
    forall i, j :: 0 <= i < j < |ts| ==>
      ts[i].dest != ts[j].dest && ts[i].dest != ts[j].backup &&
      ts[i].backup != ts[j].dest && ts[i].backup != ts[j].backup
  }

  /** One pass over the configuration: every repository is refreshed; a
      failure of one never stops the others. */
  method RefreshAll(fs: FileSystem, output: Path, urls: seq<string>) returns (trs: seq<Trace>)
    modifies fs
    ensures |trs| == |urls|
    ensures FleetAdmissible(old(fs.entries), TargetsOf(output, urls), trs)
    ensures fs.entries == FleetEffect(old(fs.entries), TargetsOf(output, urls), trs)
    ensures fs.calls == old(fs.calls) + FleetCalls(TargetsOf(output, urls), trs)
  {
    ghost var ts := TargetsOf(output, urls);
    ghost var m0 := fs.entries;
    ghost var c0 := fs.calls;
    trs := [];
    for i := 0 to |urls|
      invariant |trs| == i
      invariant PassSoFar(m0, c0, ts[..i], trs, fs.entries, fs.calls)
    {
      assert ts[i] == TargetOf(output, urls[i]);
      ghost var e, c := fs.entries, fs.calls;
      var tr := Refresh(fs, output, urls[i]);
      PassStep(m0, c0, ts, trs, tr, e, c, fs.entries, fs.calls);
      trs := trs + [tr];
    }
    assert ts[..|urls|] == ts;
  }

  /** The first `i + 1` targets are the first `i` followed by target `i`. */
  lemma PrefixStep(ts: seq<Target>, i: nat)
    requires i < |ts|
    ensures ts[..i + 1] == ts[..i] + [ts[i]]
  {
  }

  /** `e` and `c` are the filesystem and the call log after refreshing `ts`
      with outcomes `trs`, starting from `m` and `c0`. */
  ghost predicate PassSoFar(m: Entries, c0: seq<Call>, ts: seq<Target>, trs: seq<Trace>, e: Entries, c: seq<Call>)
    requires |ts| == |trs|
  {
    FleetAdmissible(m, ts, trs) && e == FleetEffect(m, ts, trs) && c == c0 + FleetCalls(ts, trs)
  }

  /** One more refresh extends a pass. */
  lemma PassStep(m: Entries, c0: seq<Call>, ts: seq<Target>, trs: seq<Trace>, tr: Trace,
                 e: Entries, c: seq<Call>, e': Entries, c': seq<Call>)
    requires |trs| < |ts| && PassSoFar(m, c0, ts[..|trs|], trs, e, c)
    requires Admissible(e, ts[|trs|], tr) && e' == Effect(e, ts[|trs|], tr)
    requires c' == c + Calls(ts[|trs|], tr)
    ensures PassSoFar(m, c0, ts[..|trs| + 1], trs + [tr], e', c')
  {
    ExtendPrefix(m, c0, ts, trs, tr);
  }

  /** The pass over the first `|trs| + 1` targets is the pass over the first
      `|trs|` followed by one more refresh. */
  lemma ExtendPrefix(m: Entries, c: seq<Call>, ts: seq<Target>, trs: seq<Trace>, tr: Trace)
    requires |trs| < |ts|
    ensures var i := |trs|;
      FleetEffect(m, ts[..i + 1], trs + [tr]) == Effect(FleetEffect(m, ts[..i], trs), ts[i], tr) &&
      (FleetAdmissible(m, ts[..i + 1], trs + [tr]) <==>
        FleetAdmissible(m, ts[..i], trs) && Admissible(FleetEffect(m, ts[..i], trs), ts[i], tr)) &&
      c + FleetCalls(ts[..i + 1], trs + [tr]) == (c + FleetCalls(ts[..i], trs)) + Calls(ts[i], tr)
  {
    var i := |trs|;
    PrefixStep(ts, i);
    Extend(m, ts[..i], trs, ts[i], tr);
  }

  /** Running one more refresh after a pass extends it. */
  lemma Extend(m: Entries, ts: seq<Target>, trs: seq<Trace>, t: Target, tr: Trace)
    requires |ts| == |trs|
    ensures FleetEffect(m, ts + [t], trs + [tr]) == Effect(FleetEffect(m, ts, trs), t, tr)
    ensures FleetAdmissible(m, ts + [t], trs + [tr]) <==>
      FleetAdmissible(m, ts, trs) && Admissible(FleetEffect(m, ts, trs), t, tr)
    ensures FleetCalls(ts + [t], trs + [tr]) == FleetCalls(ts, trs) + Calls(t, tr)
  {
    assert (ts + [t])[..|ts|] == ts;
    assert (trs + [tr])[..|trs|] == trs;
  }

  /** Every repository of the pass is refreshed: the calls of the pass contain
      the clone of each target, and after a failed backup rename of a target
      the clone of that same target comes next. */
  lemma {:induction false} FleetClonesEach(m: Entries, ts: seq<Target>, trs: seq<Trace>, k: nat)
    requires |ts| == |trs| && FleetAdmissible(m, ts, trs) && k < |ts|
    ensures CloneCall(ts[k].url, ts[k].dest) in FleetCalls(ts, trs)
    ensures trs[k].backup == Failed ==>
      exists i :: 0 <= i < |FleetCalls(ts, trs)| - 1 &&
        FleetCalls(ts, trs)[i] == RenameCall(ts[k].dest, ts[k].backup) &&
        FleetCalls(ts, trs)[i + 1] == CloneCall(ts[k].url, ts[k].dest)
  {
    var n := |ts| - 1;
    var pre := FleetCalls(ts[..n], trs[..n]);
    assert FleetCalls(ts, trs) == pre + Calls(ts[n], trs[n]);
    if k == n {
      var c := Calls(ts[n], trs[n]);
      CloneAlwaysAttempted(FleetEffect(m, ts[..n], trs[..n]), ts[n], trs[n]);
      var j := if trs[n].backup == Skipped then 0 else 1;
      assert (pre + c)[|pre| + j] == CloneCall(ts[k].url, ts[k].dest);
      if trs[k].backup == Failed {
        assert (pre + c)[|pre|] == RenameCall(ts[k].dest, ts[k].backup);
      }
    } else {
      FleetClonesEach(m, ts[..n], trs[..n], k);
      if trs[k].backup == Failed {
        var i :| 0 <= i < |pre| - 1 &&
          pre[i] == RenameCall(ts[k].dest, ts[k].backup) && pre[i + 1] == CloneCall(ts[k].url, ts[k].dest);
        assert (pre + Calls(ts[n], trs[n]))[i] == pre[i];
        assert (pre + Calls(ts[n], trs[n]))[i + 1] == pre[i + 1];
      }
    }
  }

  /** A path that belongs to no target is the same after the whole pass. */
  lemma {:induction false} FleetUntouched(m: Entries, ts: seq<Target>, trs: seq<Trace>, p: Path)
    requires |ts| == |trs|
    requires forall k :: 0 <= k < |ts| ==> p != ts[k].dest && p != ts[k].backup
    ensures AgreeAt(FleetEffect(m, ts, trs), m, p)
  {
    if |ts| > 0 {
      var n := |ts| - 1;
      FleetUntouched(m, ts[..n], trs[..n], p);
      Frame(FleetEffect(m, ts[..n], trs[..n]), ts[n], trs[n], p);
    }
  }

  /** The prefix of a disjoint list of targets is disjoint, and the last
      target shares no path with any earlier one. */
  lemma DisjointPrefix(ts: seq<Target>)
    requires Disjoint(ts) && |ts| > 0
    ensures Disjoint(ts[..|ts| - 1])
    ensures forall k :: 0 <= k < |ts| - 1 ==>
      ts[|ts| - 1].dest != ts[k].dest && ts[|ts| - 1].dest != ts[k].backup &&
      ts[|ts| - 1].backup != ts[k].dest && ts[|ts| - 1].backup != ts[k].backup
  {
  }

  /** Independence: with no shared paths, each repository's two paths end the
      pass exactly as a refresh of that repository alone, from the initial
      filesystem, would leave them, whatever happened to the others. */
  lemma {:induction false} FleetIndependence(m: Entries, ts: seq<Target>, trs: seq<Trace>, k: nat)
    requires |ts| == |trs| && Disjoint(ts) && k < |ts|
    ensures AgreeAt(FleetEffect(m, ts, trs), Effect(m, ts[k], trs[k]), ts[k].dest)
    ensures AgreeAt(FleetEffect(m, ts, trs), Effect(m, ts[k], trs[k]), ts[k].backup)
  {
    var n := |ts| - 1;
    var pre := FleetEffect(m, ts[..n], trs[..n]);
    DisjointPrefix(ts);
    if k == n {
      FleetUntouched(m, ts[..n], trs[..n], ts[n].dest);
      FleetUntouched(m, ts[..n], trs[..n], ts[n].backup);
      Locality(pre, m, ts[n], trs[n]);
    } else {
      FleetIndependence(m, ts[..n], trs[..n], k);
      Frame(pre, ts[n], trs[n], ts[k].dest);
      Frame(pre, ts[n], trs[n], ts[k].backup);
    }
  }

  /** Each outcome in `trs` is possible for its repository refreshed alone
      from `m`. */
  predicate EachAdmissible(m: Entries, ts: seq<Target>, trs: seq<Trace>)
    requires |ts| == |trs|
  {
    forall k :: 0 <= k < |ts| ==> Admissible(m, ts[k], trs[k])
  }

  /** `EachAdmissible` of a non-empty list splits into its prefix and its last
      element. */
  lemma EachAdmissibleSplit(m: Entries, ts: seq<Target>, trs: seq<Trace>)
    requires |ts| == |trs| && |ts| > 0
    ensures EachAdmissible(m, ts, trs) <==>
      EachAdmissible(m, ts[..|ts| - 1], trs[..|trs| - 1]) &&
      Admissible(m, ts[|ts| - 1], trs[|trs| - 1])
  {
    var n := |ts| - 1;
    assert forall k :: 0 <= k < n ==> ts[..n][k] == ts[k] && trs[..n][k] == trs[k];
  }

  /** Failures are isolated: with no shared paths, a list of outcomes can occur
      in one pass exactly when each outcome could occur for its repository
      refreshed alone from the initial filesystem. */
  lemma {:induction false} FleetAdmissibleIffEach(m: Entries, ts: seq<Target>, trs: seq<Trace>)
    requires |ts| == |trs| && Disjoint(ts)
    ensures FleetAdmissible(m, ts, trs) <==> EachAdmissible(m, ts, trs)
  {
    if |ts| > 0 {
      var n := |ts| - 1;
      var pre := FleetEffect(m, ts[..n], trs[..n]);
      DisjointPrefix(ts);
      FleetAdmissibleIffEach(m, ts[..n], trs[..n]);
      FleetUntouched(m, ts[..n], trs[..n], ts[n].dest);
      FleetUntouched(m, ts[..n], trs[..n], ts[n].backup);
      Locality(pre, m, ts[n], trs[n]);
      EachAdmissibleSplit(m, ts, trs);
      assert FleetAdmissible(m, ts, trs) <==>
        FleetAdmissible(m, ts[..n], trs[..n]) && Admissible(pre, ts[n], trs[n]);
    }
  }
}
