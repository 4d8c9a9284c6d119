/**
 `process_workorder` and the coordinator around it: the counter update each
 unit performs under the lock, the order in which units complete, and the
 rule that makes the consumer stop reading completions.

 The thread pool is not modelled as threads. Each unit's counter update is
 one atomic step (the lock makes it so), and the order of those steps is an
 arbitrary rearrangement of the submitted units.
 */
module Harvest {
  import opened Values
  import opened Lookup
  import opened Persist
  import opened Identifiers
  import opened Seqs

  /** `MAX_WITH_FILES`: the found quota that stops the consumer. */
  const MaxWithFiles: nat := 20

  /** The functions standing in for the network and the decoders. */
  datatype Env = Env(parse: Parser, fetch: Fetcher, decode: Decoder)

  /** What one unit of work did: whether it found files, and what it wrote. */
  datatype UnitReport = UnitReport(workorder: string, found: bool, writes: seq<Write>)

  /**
   `process_workorder`: look the work order up, normalise the answer, and
   call `save_files`, as the program writes it, exactly when the normalised
   list is truthy.
   */
  function ProcessWorkorder(workorder: string, resp: Response, env: Env): (u: UnitReport)
    ensures u.workorder == workorder
    ensures u.found <==> FindsFiles(resp, env.parse)
    ensures !u.found ==> u.writes == []
    ensures u.found ==>
              u.writes == SaveFilesAsWritten(workorder, Normalise(GetFilesForWorkorder(workorder, resp, env.parse).data),
                                             env.fetch, env.decode)
    ensures forall k :: 0 <= k < |u.writes| ==> u.writes[k].workorder == workorder
  {
    var looked := GetFilesForWorkorder(workorder, resp, env.parse);
    var files := Normalise(looked.data);
    FoundIff(workorder, resp, env.parse);
    if Truthy(files) then UnitReport(looked.workorder, true, SaveFilesAsWritten(looked.workorder, files, env.fetch, env.decode))
    else UnitReport(looked.workorder, false, [])
  }

  /** The two shared counters, `processed_count` and `found_count`. */
  datatype Counters = Counters(processed: int, found: int)

  /** The counters before any unit completes: `processed_count` starts at the number of skipped identifiers. */
  const Initial := Counters(SkipCount, 0)

  /** One unit's critical section: `processed_count += 1`, and `found_count += 1` if it found files. */
  function Step(c: Counters, u: UnitReport): (next: Counters)
    ensures next.processed == c.processed + 1
    ensures next.found == c.found + 1 <==> u.found
    ensures c.found <= next.found <= c.found + 1
  {
    Counters(c.processed + 1, if u.found then c.found + 1 else c.found)
  }

  /** The counters after the units' critical sections ran in the order given. */
  function Run(c: Counters, us: seq<UnitReport>): (final: Counters)
    ensures final.processed == c.processed + |us|
    ensures c.found <= final.found <= c.found + |us|
    decreases |us|
  {
    if |us| == 0 then c else Run(Step(c, us[0]), us[1..])
  }

  /** What one unit adds to `found_count`. */
  function FoundValue(u: UnitReport): nat {
    if u.found then 1 else 0
  }

  /** The number of units that found files. */
  function CountFound(us: seq<UnitReport>): (n: nat)
    ensures n <= |us|
  {
    if |us| == 0 then 0 else FoundValue(us[0]) + CountFound(us[1..])
  }

  /** Every unit adds one to `processed_count` and one to `found_count` exactly when it found files. */
  lemma {:induction false} RunTotals(c: Counters, us: seq<UnitReport>)
    ensures Run(c, us) == Counters(c.processed + |us|, c.found + CountFound(us))
    decreases |us|
  {
    if |us| > 0 {
      RunTotals(Step(c, us[0]), us[1..]);
    }
  }

  lemma {:induction false} CountFoundAppend(a: seq<UnitReport>, b: seq<UnitReport>)
    ensures CountFound(a + b) == CountFound(a) + CountFound(b)
    decreases |a|
  {
    if |a| > 0 {
      assert (a + b)[0] == a[0];
      assert (a + b)[1..] == a[1..] + b;
      CountFoundAppend(a[1..], b);
      assert CountFound(a + b) == FoundValue(a[0]) + CountFound(a[1..] + b);
    } else {
      assert a + b == b;
    }
  }

  /** Taking one unit out of a sequence takes its contribution out of the count. */
  lemma RemoveOneCount(b: seq<UnitReport>, i: nat)
    requires i < |b|
    ensures CountFound(b) == CountFound(b[..i] + b[i + 1..]) + FoundValue(b[i])
  {
    var front, back := b[..i], b[i + 1..];
    SplitAround(b, i);
    CountFoundAppend(front, [b[i]] + back);
    assert ([b[i]] + back)[1..] == back;
    assert CountFound([b[i]] + back) == FoundValue(b[i]) + CountFound(back);
    CountFoundAppend(front, back);
  }

  /** The number of units that found files does not depend on their order. */
  lemma {:induction false} CountFoundPermutation(a: seq<UnitReport>, b: seq<UnitReport>)
    requires multiset(a) == multiset(b)
    ensures CountFound(a) == CountFound(b)
    decreases |a|
  {
    if |a| == 0 {
      assert |b| == |multiset(b)| == 0;
    } else {
      var x := a[0];
      assert x in multiset(b);
      var i :| 0 <= i < |b| && b[i] == x;
      RemoveMatching(a, b, i);
      CountFoundPermutation(a[1..], b[..i] + b[i + 1..]);
      RemoveOneCount(a, 0);
      RemoveOneCount(b, i);
      assert a[..0] + a[1..] == a[1..];
    }
  }

  /**
   Whatever order the units complete in, the final counters are the starting
   ones plus the number of units and plus the number that found files.
   */
  lemma CompletionOrderIrrelevant(c: Counters, submitted: seq<UnitReport>, completed: seq<UnitReport>)
    requires multiset(completed) == multiset(submitted)
    ensures Run(c, completed) == Run(c, submitted)
    ensures Run(c, completed) == Counters(c.processed + |submitted|, c.found + CountFound(submitted))
  {
    RunTotals(c, completed);
    RunTotals(c, submitted);
    CountFoundPermutation(completed, submitted);
    assert |completed| == |multiset(completed)| == |submitted|;
  }

  /**
   At every observation point the growth in `found_count` is at most the
   growth in `processed_count`; from the initial counters, `found_count`
   stays below `processed_count`.
   */
  lemma FoundNeverOutgrowsProcessed(c: Counters, us: seq<UnitReport>, m: nat)
    requires m <= |us|
    ensures 0 <= Run(c, us[..m]).found - c.found <= Run(c, us[..m]).processed - c.processed == m
    ensures c == Initial ==> Run(c, us[..m]).found < Run(c, us[..m]).processed
  {
    RunTotals(c, us[..m]);
  }

  /** Completing more units never lowers `found_count`. */
  lemma {:induction false} FoundMonotone(c: Counters, us: seq<UnitReport>, m: nat, m': nat)
    requires m <= m' <= |us|
    ensures Run(c, us[..m]).found <= Run(c, us[..m']).found
  {
    RunTotals(c, us[..m]);
    RunTotals(c, us[..m']);
    assert us[..m'] == us[..m] + us[m..m'];
    CountFoundAppend(us[..m], us[m..m']);
  }

  // ---------------------------------------------------------------------------
  // The consumer loop: `for future in as_completed(futures)` with the quota check
  // ---------------------------------------------------------------------------

  /**
   When the consumer looks at the counters. Its `k`-th check (from 0) comes
   after the `k`-th completion it reads, when `seen[k]` units have passed the
   lock: at least `k + 1`, since every future it has read ran its critical
   section before it finished, and never fewer than at an earlier check.
   */
  predicate ValidSchedule(n: nat, seen: seq<nat>) {
    && |seen| == n
    && (forall k :: 0 <= k < n ==> k + 1 <= seen[k] <= n)
    && (forall k, l :: 0 <= k <= l < n ==> seen[k] <= seen[l])
  }

  /** `found_count` as the consumer's `k`-th check reads it. */
  function ObservedFound(c: Counters, completed: seq<UnitReport>, seen: seq<nat>, k: nat): int
    requires ValidSchedule(|completed|, seen) && k < |completed|
  {
    Run(c, completed[..seen[k]]).found
  }

  /**
   The consumer loop. It reads completions one by one and breaks at the
   first check that sees `found_count >= MAX_WITH_FILES`; `consumed` is the
   number of completions it read, `stopped` whether it broke out.
   */
  method Consume(c: Counters, completed: seq<UnitReport>, seen: seq<nat>) returns (consumed: nat, stopped: bool)
    requires ValidSchedule(|completed|, seen)
    ensures consumed <= |completed|
    ensures !stopped ==> consumed == |completed|
    ensures stopped ==> 1 <= consumed && ObservedFound(c, completed, seen, consumed - 1) >= MaxWithFiles
    ensures forall k :: 0 <= k < consumed && !(stopped && k == consumed - 1) ==>
              ObservedFound(c, completed, seen, k) < MaxWithFiles
    // the consumer stops no later than the completion at which the quota is reached
    ensures forall m :: 1 <= m <= |completed| && Run(c, completed[..m]).found >= MaxWithFiles ==>
              stopped && consumed <= m
  {
    var n := |completed|;
    var k := 0;
    stopped := false;
    while k < n && !stopped
      invariant 0 <= k <= n
      invariant stopped ==> 1 <= k && ObservedFound(c, completed, seen, k - 1) >= MaxWithFiles
      invariant forall j :: 0 <= j < k && !(stopped && j == k - 1) ==>
                  ObservedFound(c, completed, seen, j) < MaxWithFiles
    {
      if Run(c, completed[..seen[k]]).found >= MaxWithFiles {
        stopped := true;
      }
      k := k + 1;
    }
    consumed := k;
    forall m | 1 <= m <= n && Run(c, completed[..m]).found >= MaxWithFiles
      ensures stopped && consumed <= m
    {
      FoundMonotone(c, completed, m, seen[m - 1]);
      assert ObservedFound(c, completed, seen, m - 1) >= MaxWithFiles;
    }
  }

  /** The units in submission order: one per identifier, with that identifier's response. */
  function Submitted(ids: seq<string>, resps: seq<Response>, env: Env): (us: seq<UnitReport>)
    requires |resps| == |ids|
    ensures |us| == |ids|
    ensures forall i :: 0 <= i < |ids| ==> us[i] == ProcessWorkorder(ids[i], resps[i], env)
  {
    seq(|ids|, i requires 0 <= i < |ids| => ProcessWorkorder(ids[i], resps[i], env))
  }

  /** Every file written by any unit, in completion order. */
  function AllWrites(us: seq<UnitReport>): seq<Write>
    decreases |us|
  {
    if |us| == 0 then [] else us[0].writes + AllWrites(us[1..])
  }

  /**
   The whole harvest over the identifiers (already loaded and skipped), one
   response per identifier, and `completed`, the order in which the units'
   critical sections ran (any rearrangement of the submitted units). Nothing
   is cancelled when the consumer stops: leaving the executor's `with` block
   waits for every submitted unit.
   */
  method RunHarvest(ids: seq<string>, resps: seq<Response>, env: Env, completed: seq<UnitReport>, seen: seq<nat>)
    returns (final: Counters, consumed: nat, stopped: bool, writes: seq<Write>)
    requires |resps| == |ids|
    requires multiset(completed) == multiset(Submitted(ids, resps, env))
    requires ValidSchedule(|completed|, seen)
    ensures final == Counters(SkipCount + |ids|, CountFound(Submitted(ids, resps, env)))
    ensures consumed <= |ids|
    ensures writes == AllWrites(completed)
    ensures stopped <==> CountFound(Submitted(ids, resps, env)) >= MaxWithFiles
  {
    var submitted := Submitted(ids, resps, env);
    assert |completed| == |multiset(completed)| == |submitted|;
    consumed, stopped := Consume(Initial, completed, seen);
    CompletionOrderIrrelevant(Initial, submitted, completed);
    assert completed[..|completed|] == completed;
    final := Run(Initial, completed);
    writes := AllWrites(completed);
    if stopped {
      // the count a check saw never exceeds the count at the end
      FoundMonotone(Initial, completed, seen[consumed - 1], |completed|);
    }
  }

  /**
   With distinct identifiers, no two files written during a harvest share a
   name, whichever units they come from.
   */
  lemma HarvestNamesDistinct(ids: seq<string>, resps: seq<Response>, env: Env, i: nat, j: nat, k: nat, l: nat)
    requires |resps| == |ids|
    requires forall p, q :: 0 <= p < q < |ids| ==> ids[p] != ids[q]
    requires i < |ids| && j < |ids|
    requires k < |Submitted(ids, resps, env)[i].writes| && l < |Submitted(ids, resps, env)[j].writes|
    requires i != j || k != l
    ensures Submitted(ids, resps, env)[i].writes[k].Name() != Submitted(ids, resps, env)[j].writes[l].Name()
  {
    var us := Submitted(ids, resps, env);
    var a, b := us[i].writes[k], us[j].writes[l];
    assert us[i].found && us[j].found;
    if i == j {
      if k < l { assert a.idx < b.idx; } else { assert b.idx < a.idx; }
    } else {
      assert a.workorder == ids[i] && b.workorder == ids[j];
    }
    WritesNamesDistinct(a, b);
  }
}
