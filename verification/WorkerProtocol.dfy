/** The fetch protocol of both sources as a step system: one worker per item takes a token of a
    semaphore, produces one result, sends it on a channel and releases the token, while a collector
    receives. The OCI source uses an unbuffered channel and always drains it; the Glance source
    buffers one slot per worker and its collector may return early when the context is cancelled. */
module WorkerProtocol {
  import opened Prelude

  datatype Worker<R> =
    | Waiting
    | Fetching
    | Sending(result: R, holding: bool)
    | Releasing
    | Done
  {
    predicate Holds() {
      Fetching? || Releasing? || (Sending? && holding)
    }

    predicate Sent() {
      Releasing? || Done?
    }

    function Weight(): nat {
      match this case Waiting => 4 case Fetching => 3 case Sending(_, _) => 2 case Releasing => 1 case Done => 0
    }
  }

  /** `results[w]` is what the work of worker `w` yields. When the context may be cancelled, waiting
      for a token or the work itself may yield `cancelled` instead. */
  datatype Env<R> = Env(parallel: nat, results: seq<R>, cancelled: R, mayCancel: bool, capacity: nat,
      stopsOnCancel: bool) {
    ghost predicate Yields(w: nat, r: R)
      requires w < |results|
    {
      r == results[w] || (mayCancel && r == cancelled)
    }

    /** The two uses: the OCI source, and the Glance source. */
    predicate Wired() {
      parallel >= 1 && ((capacity == 0 && !stopsOnCancel) || (capacity == |results| && capacity > 0))
    }
  }

  /** `sent` lists every message put on the channel with its worker; the collector has taken the first
      `received` of them, the rest is in the buffer. */
  datatype State<R> = State(workers: seq<Worker<R>>, sent: seq<(nat, R)>, received: nat, collecting: bool)

  function Init<R>(e: Env<R>): State<R> {
    State(seq(|e.results|, _ => Waiting), [], 0, true)
  }

  function Holders<R>(workers: seq<Worker<R>>): nat {
    if workers == [] then 0 else (if workers[0].Holds() then 1 else 0) + Holders(workers[1..])
  }

  /** One step of worker `w`. */
  ghost predicate WorkerStep<R>(e: Env<R>, s: State<R>, t: State<R>, w: nat)
    requires w < |s.workers| == |e.results|
  {
    match s.workers[w]
    case Waiting =>
      || (Holders(s.workers) < e.parallel && t == s.(workers := s.workers[w := Fetching]))
      || (e.mayCancel && t == s.(workers := s.workers[w := Sending(e.cancelled, false)]))
    case Fetching =>
      && |t.workers| == |s.workers| && t.workers[w].Sending? && t.workers[w].holding && e.Yields(w, t.workers[w].result)
      && t == s.(workers := s.workers[w := t.workers[w]])
    case Sending(r, holding) =>
      var workers := s.workers[w := if holding then Releasing else Done];
      if e.capacity == 0 then
        && s.collecting && s.received == |s.sent| < |e.results|
        && t == s.(workers := workers, sent := s.sent + [(w, r)], received := s.received + 1)
      else
        |s.sent| - s.received < e.capacity && t == s.(workers := workers, sent := s.sent + [(w, r)])
    case Releasing => t == s.(workers := s.workers[w := Done])
    case Done => false
  }

  /** The collector of a buffered channel takes the next message. */
  ghost predicate CollectorStep<R>(e: Env<R>, s: State<R>, t: State<R>) {
    && e.capacity > 0 && s.collecting && s.received < |s.sent| && s.received < |e.results|
    && t == s.(received := s.received + 1, collecting := !(e.stopsOnCancel && s.sent[s.received].1 == e.cancelled))
  }

  ghost predicate Next<R>(e: Env<R>, s: State<R>, t: State<R>)
    requires |s.workers| == |e.results|
  {
    CollectorStep(e, s, t) || exists w :: 0 <= w < |s.workers| && WorkerStep(e, s, t, w)
  }

  // ---------------------------------------------------------------- safety

  ghost predicate SentBy<R>(sent: seq<(nat, R)>, w: nat) {
    exists i :: 0 <= i < |sent| && sent[i].0 == w
  }

  ghost predicate Inv<R>(e: Env<R>, s: State<R>) {
    && |s.workers| == |e.results|
    && Holders(s.workers) <= e.parallel
    && s.received <= |s.sent|
    && (e.capacity == 0 ==> s.received == |s.sent| && s.collecting)
    && (forall i :: 0 <= i < |s.sent| ==> s.sent[i].0 < |e.results| && e.Yields(s.sent[i].0, s.sent[i].1))
    && (forall i, j :: 0 <= i < j < |s.sent| ==> s.sent[i].0 != s.sent[j].0)
    && (forall w :: 0 <= w < |s.workers| ==> (SentBy(s.sent, w) <==> s.workers[w].Sent()))
    && (forall w :: 0 <= w < |s.workers| && s.workers[w].Sending? ==> e.Yields(w, s.workers[w].result))
  }

  lemma {:induction false} HoldersUpdate<R>(workers: seq<Worker<R>>, w: nat, x: Worker<R>)
    requires w < |workers|
    ensures Holders(workers[w := x]) ==
            Holders(workers) - (if workers[w].Holds() then 1 else 0) + (if x.Holds() then 1 else 0)
  {
    if w == 0 {
      assert workers[w := x][1..] == workers[1..];
    } else {
      assert workers[w := x][1..] == workers[1..][w - 1 := x];
      HoldersUpdate(workers[1..], w - 1, x);
    }
  }

  lemma {:induction false} NoHolders<R>(workers: seq<Worker<R>>)
    requires forall w :: 0 <= w < |workers| ==> !workers[w].Holds()
    ensures Holders(workers) == 0
  {
    if workers != [] {
      NoHolders(workers[1..]);
    }
  }

  lemma {:induction false} HoldersCount<R>(workers: seq<Worker<R>>, busy: set<nat>)
    requires forall w :: w in busy ==> w < |workers| && workers[w].Holds()
    ensures |busy| <= Holders(workers)
    decreases |workers|
  {
    if workers == [] {
      if w :| w in busy {
        assert false;
      }
    } else {
      var n := |workers| - 1;
      HoldersCount(workers[..n], busy - {n});
      HoldersSnoc(workers);
    }
  }

  lemma {:induction false} HoldersSnoc<R>(workers: seq<Worker<R>>)
    requires workers != []
    ensures var n := |workers| - 1;
            Holders(workers) == Holders(workers[..n]) + if workers[n].Holds() then 1 else 0
  {
    if |workers| > 1 {
      HoldersSnoc(workers[1..]);
      assert workers[..|workers| - 1][1..] == workers[1..][..|workers| - 2];
    }
  }

  lemma InitInv<R>(e: Env<R>)
    ensures Inv(e, Init(e))
  {
    NoHolders(Init(e).workers);
  }

  /** Replacing a worker that does not send now. */
  lemma ReplaceInv<R>(e: Env<R>, s: State<R>, w: nat, x: Worker<R>)
    requires Inv(e, s) && w < |s.workers|
    requires x.Sent() == s.workers[w].Sent() && (x.Sending? ==> e.Yields(w, x.result))
    requires x.Holds() ==> s.workers[w].Holds() || Holders(s.workers) < e.parallel
    ensures Inv(e, s.(workers := s.workers[w := x]))
  {
    HoldersUpdate(s.workers, w, x);
    var t := s.(workers := s.workers[w := x]);
    forall v | 0 <= v < |t.workers| ensures SentBy(t.sent, v) <==> t.workers[v].Sent() {
      assert SentBy(s.sent, v) <==> s.workers[v].Sent();
    }
  }

  lemma LocalStepInv<R>(e: Env<R>, s: State<R>, t: State<R>, w: nat)
    requires Inv(e, s) && w < |s.workers| && WorkerStep(e, s, t, w) && !s.workers[w].Sending?
    ensures Inv(e, t)
  {
    var x := t.workers[w];
    assert t == s.(workers := s.workers[w := x]);
    ReplaceInv(e, s, w, x);
  }

  lemma SendInv<R>(e: Env<R>, s: State<R>, t: State<R>, w: nat)
    requires Inv(e, s) && w < |s.workers| && WorkerStep(e, s, t, w) && s.workers[w].Sending?
    ensures Inv(e, t)
  {
    HoldersUpdate(s.workers, w, t.workers[w]);
    assert t.sent == s.sent + [(w, s.workers[w].result)];
    assert !SentBy(s.sent, w);
    forall i | 0 <= i < |s.sent| ensures s.sent[i].0 != w {}
    forall v | 0 <= v < |s.workers| ensures SentBy(t.sent, v) <==> t.workers[v].Sent() {
      SentByAppend(s.sent, w, s.workers[w].result, v);
    }
  }

  lemma SentByAppend<R>(sent: seq<(nat, R)>, w: nat, r: R, v: nat)
    ensures SentBy(sent + [(w, r)], v) <==> SentBy(sent, v) || v == w
  {
    var t := sent + [(w, r)];
    if i :| 0 <= i < |sent| && sent[i].0 == v {
      assert t[i].0 == v;
    }
    assert t[|sent|].0 == w;
  }

  lemma NextInv<R>(e: Env<R>, s: State<R>, t: State<R>)
    requires Inv(e, s) && Next(e, s, t)
    ensures Inv(e, t)
  {
    if !CollectorStep(e, s, t) {
      var w :| 0 <= w < |s.workers| && WorkerStep(e, s, t, w);
      if s.workers[w].Sending? {
        SendInv(e, s, t, w);
      } else {
        LocalStepInv(e, s, t, w);
      }
    }
  }

  /** A run of the protocol. */
  ghost predicate Run<R(!new)>(e: Env<R>, run: seq<State<R>>) {
    && run != [] && run[0] == Init(e)
    && (forall i :: 0 <= i < |run| ==> |run[i].workers| == |e.results|)
    && forall i :: 0 <= i < |run| - 1 ==> Next(e, run[i], run[i + 1])
  }

  /** In every state of every run at most `parallel` workers hold a token, and every worker has sent at
      most one message, which is its own result or a cancellation. */
  lemma {:induction false} SafeAlways<R(!new)>(e: Env<R>, run: seq<State<R>>, i: nat)
    requires Run(e, run) && i < |run|
    ensures Inv(e, run[i])
  {
    if i == 0 {
      InitInv(e);
    } else {
      SafeAlways(e, run, i - 1);
      NextInv(e, run[i - 1], run[i]);
    }
  }

  /** In particular no more than `parallel` workers fetch at a time. */
  lemma AtMostParallel<R(!new)>(e: Env<R>, run: seq<State<R>>, i: nat, busy: set<nat>)
    requires Run(e, run) && i < |run|
    requires forall w :: w in busy ==> w < |run[i].workers| && run[i].workers[w].Fetching?
    ensures |busy| <= e.parallel
  {
    SafeAlways(e, run, i);
    HoldersCount(run[i].workers, busy);
  }

  // ---------------------------------------------------------------- progress

  predicate Finished<R>(e: Env<R>, s: State<R>) {
    && (forall w :: 0 <= w < |s.workers| ==> s.workers[w].Done?)
    && (s.collecting ==> s.received == |e.results|)
  }

  function Weights<R>(workers: seq<Worker<R>>): nat {
    if workers == [] then 0 else workers[0].Weight() + Weights(workers[1..])
  }

  lemma {:induction false} WeightsUpdate<R>(workers: seq<Worker<R>>, w: nat, x: Worker<R>)
    requires w < |workers|
    ensures Weights(workers[w := x]) == Weights(workers) - workers[w].Weight() + x.Weight()
  {
    if w == 0 {
      assert workers[w := x][1..] == workers[1..];
    } else {
      assert workers[w := x][1..] == workers[1..][w - 1 := x];
      WeightsUpdate(workers[1..], w - 1, x);
    }
  }

  /** What is left to do. */
  function Remaining<R>(e: Env<R>, s: State<R>): int {
    Weights(s.workers) + |e.results| - s.received
  }

  /** Messages come from different workers, so there are never more than workers that have sent. */
  lemma SentAtMost<R>(e: Env<R>, s: State<R>)
    requires Inv(e, s)
    ensures |s.sent| <= |e.results|
    ensures |s.sent| == |e.results| ==> forall w :: 0 <= w < |s.workers| ==> s.workers[w].Sent()
  {
    var ids := seq(|s.sent|, i requires 0 <= i < |s.sent| => s.sent[i].0);
    DistinctBelow(ids, |e.results|);
    forall w | 0 <= w < |s.workers| && |s.sent| == |e.results| ensures s.workers[w].Sent() {
      assert w in ids;
      var i :| 0 <= i < |ids| && ids[i] == w;
      assert s.sent[i].0 == w;
    }
  }

  /** At most `n` different numbers are below `n`, and `n` of them are all of them. */
  lemma {:induction false} DistinctBelow(ids: seq<nat>, n: nat)
    requires Distinct(ids) && forall i :: 0 <= i < |ids| ==> ids[i] < n
    ensures |ids| <= n
    ensures |ids| == n ==> forall k :: 0 <= k < n ==> k in ids
  {
    if ids != [] {
      assert ids[0] < n;
    }
    if n == 0 {
    } else if n - 1 in ids {
      var i :| 0 <= i < |ids| && ids[i] == n - 1;
      var rest := ids[..i] + ids[i + 1..];
      DistinctBelow(rest, n - 1);
      assert forall k :: k in rest ==> k in ids;
    } else {
      assert forall i :: 0 <= i < |ids| ==> ids[i] in ids;
      DistinctBelow(ids, n - 1);
    }
  }

  /** Every step uses up some of what is left, so every run is finite. */
  lemma StepsDecrease<R>(e: Env<R>, s: State<R>, t: State<R>)
    requires Inv(e, s) && Next(e, s, t)
    ensures 0 <= Remaining(e, t) < Remaining(e, s)
  {
    NextInv(e, s, t);
    SentAtMost(e, t);
    if !CollectorStep(e, s, t) {
      var w :| 0 <= w < |s.workers| && WorkerStep(e, s, t, w);
      WorkerStepDecreases(e, s, t, w);
    }
  }

  lemma WorkerStepDecreases<R>(e: Env<R>, s: State<R>, t: State<R>, w: nat)
    requires |s.workers| == |e.results| && w < |s.workers| && WorkerStep(e, s, t, w)
    ensures Remaining(e, t) < Remaining(e, s)
  {
    WeightsUpdate(s.workers, w, t.workers[w]);
    assert t.workers == s.workers[w := t.workers[w]];
  }

  /** While some worker is not done, some worker can take a step, whether or not the collector still
      receives: with a slot per worker nobody waits for it. */
  lemma WorkersNeverStuck<R>(e: Env<R>, s: State<R>)
    requires e.Wired() && Inv(e, s) && exists w :: 0 <= w < |s.workers| && !s.workers[w].Done?
    ensures exists t, w :: 0 <= w < |s.workers| && WorkerStep(e, s, t, w)
  {
    SentAtMost(e, s);
    if w :| 0 <= w < |s.workers| && s.workers[w].Releasing? {
      assert WorkerStep(e, s, s.(workers := s.workers[w := Done]), w);
    } else if w :| 0 <= w < |s.workers| && s.workers[w].Fetching? {
      assert WorkerStep(e, s, s.(workers := s.workers[w := Sending(e.results[w], true)]), w);
    } else if w :| 0 <= w < |s.workers| && s.workers[w].Sending? {
      var x := s.workers[w];
      var workers := s.workers[w := if x.holding then Releasing else Done];
      assert |s.sent| < |e.results|;
      if e.capacity == 0 {
        var t := s.(workers := workers, sent := s.sent + [(w, x.result)], received := s.received + 1);
        assert WorkerStep(e, s, t, w);
      } else {
        assert WorkerStep(e, s, s.(workers := workers, sent := s.sent + [(w, x.result)]), w);
      }
    } else {
      var w :| 0 <= w < |s.workers| && !s.workers[w].Done?;
      NoHolders(s.workers);
      assert s.workers[w].Waiting?;
      assert WorkerStep(e, s, s.(workers := s.workers[w := Fetching]), w);
    }
  }

  /** No state short of the end is stuck. */
  lemma NeverStuck<R>(e: Env<R>, s: State<R>)
    requires e.Wired() && Inv(e, s) && !Finished(e, s)
    ensures exists t :: Next(e, s, t)
  {
    if exists w :: 0 <= w < |s.workers| && !s.workers[w].Done? {
      WorkersNeverStuck(e, s);
      var t, w :| 0 <= w < |s.workers| && WorkerStep(e, s, t, w);
      assert Next(e, s, t);
    } else {
      AllSent(e, s);
      var t := s.(received := s.received + 1, collecting := !(e.stopsOnCancel && s.sent[s.received].1 == e.cancelled));
      assert CollectorStep(e, s, t);
      assert Next(e, s, t);
    }
  }

  lemma AllSent<R>(e: Env<R>, s: State<R>)
    requires Inv(e, s) && forall w :: 0 <= w < |s.workers| ==> s.workers[w].Done?
    ensures |s.sent| == |e.results|
  {
    var ids := seq(|s.sent|, i requires 0 <= i < |s.sent| => s.sent[i].0);
    SentAtMost(e, s);
    forall k | 0 <= k < |e.results| ensures k in ids {
      assert SentBy(s.sent, k);
      var i :| 0 <= i < |s.sent| && s.sent[i].0 == k;
      assert ids[i] == k;
    }
    AllBelow(ids, |e.results|);
  }

  lemma {:induction false} AllBelow(ids: seq<nat>, n: nat)
    requires forall k :: 0 <= k < n ==> k in ids
    ensures n <= |ids|
  {
    if n > 0 {
      assert n - 1 in ids;
      var i :| 0 <= i < |ids| && ids[i] == n - 1;
      var rest := ids[..i] + ids[i + 1..];
      assert ids == ids[..i] + [n - 1] + ids[i + 1..];
      forall k | 0 <= k < n - 1 ensures k in rest {
        assert k in ids;
      }
      AllBelow(rest, n - 1);
    }
  }

  /** When the workers are done each has sent exactly one message, cancelled or not, whether or not the
      collector was still there; and one that never returns early has received them all. */
  lemma ExactlyOneMessageEach<R(!new)>(e: Env<R>, run: seq<State<R>>)
    requires Run(e, run) && Finished(e, run[|run| - 1])
    ensures var s := run[|run| - 1];
            && |s.sent| == |e.results|
            && (forall w :: 0 <= w < |e.results| ==> SentBy(s.sent, w))
            && (forall i, j :: 0 <= i < j < |s.sent| ==> s.sent[i].0 != s.sent[j].0)
            && (forall i :: 0 <= i < |s.sent| ==> s.sent[i].0 < |e.results| && e.Yields(s.sent[i].0, s.sent[i].1))
            && (e.capacity == 0 ==> s.received == |e.results|)
  {
    var s := run[|run| - 1];
    SafeAlways(e, run, |run| - 1);
    AllSent(e, s);
    forall w | 0 <= w < |e.results| ensures SentBy(s.sent, w) {
      assert s.workers[w].Done?;
    }
  }

  /** A run that has come to its end. */
  ghost predicate FinishedRun<R(!new)>(e: Env<R>, run: seq<State<R>>) {
    Run(e, run) && Finished(e, run[|run| - 1])
  }

  /** A run is no longer than the work it has used up. */
  lemma {:induction false} RunLength<R(!new)>(e: Env<R>, run: seq<State<R>>, i: nat)
    requires Run(e, run) && i < |run|
    ensures 0 <= Remaining(e, run[i]) <= Remaining(e, run[0]) - i
  {
    if i == 0 {
      SafeAlways(e, run, 0);
      assert run[0].received == 0;
    } else {
      RunLength(e, run, i - 1);
      SafeAlways(e, run, i - 1);
      StepsDecrease(e, run[i - 1], run[i]);
    }
  }

  /** Every run can be continued to one that has finished, and is no longer than the work there is at the
      start. */
  lemma {:induction false} RunsFinish<R(!new)>(e: Env<R>, run: seq<State<R>>)
    requires e.Wired() && Run(e, run)
    ensures exists longer :: run <= longer && FinishedRun(e, longer)
    ensures |run| <= 1 + Remaining(e, Init(e))
    decreases Remaining(e, run[|run| - 1])
  {
    var s := run[|run| - 1];
    RunLength(e, run, |run| - 1);
    if Finished(e, s) {
      assert run <= run && FinishedRun(e, run);
    } else {
      SafeAlways(e, run, |run| - 1);
      NeverStuck(e, s);
      var t :| Next(e, s, t);
      StepsDecrease(e, s, t);
      NextInv(e, s, t);
      var more := run + [t];
      RunAppend(e, run, t);
      RunsFinish(e, more);
      var longer :| more <= longer && FinishedRun(e, longer);
      assert run <= more;
      assert run <= longer;
    }
  }

  lemma RunAppend<R(!new)>(e: Env<R>, run: seq<State<R>>, t: State<R>)
    requires Run(e, run) && Next(e, run[|run| - 1], t) && |t.workers| == |e.results|
    ensures Run(e, run + [t])
  {
    var more := run + [t];
    forall i | 0 <= i < |more| - 1 ensures Next(e, more[i], more[i + 1]) {
      assert i < |run| - 1 ==> Next(e, run[i], run[i + 1]);
    }
  }

  /** Four steps for a worker and one for the collector, per result. */
  lemma InitialWork<R>(e: Env<R>)
    ensures Remaining(e, Init(e)) == 5 * |e.results|
  {
    AllWaiting(Init(e).workers);
  }

  lemma {:induction false} AllWaiting<R>(workers: seq<Worker<R>>)
    requires forall w :: 0 <= w < |workers| ==> workers[w] == Waiting
    ensures Weights(workers) == 4 * |workers|
  {
    if workers != [] {
      AllWaiting(workers[1..]);
    }
  }

  // ---------------------------------------------------------------- the collected results

  /** The results in the order the collector received them. */
  function Received<R>(s: State<R>): seq<R>
    requires s.received <= |s.sent|
  {
    seq(s.received, i requires 0 <= i < s.received => s.sent[i].1)
  }

  function Range(n: nat): (r: seq<nat>)
    ensures |r| == n && forall i :: 0 <= i < n ==> r[i] == i
  {
    seq(n, i => i)
  }

  lemma {:induction false} FilterMapIndices<R>(ids: seq<nat>, results: seq<R>, picked: seq<R>)
    requires |ids| == |picked| && forall i :: 0 <= i < |ids| ==> ids[i] < |results| && results[ids[i]] == picked[i]
    ensures FilterMap(ids, (i: nat) => if i < |results| then Some(results[i]) else None) == picked
  {
    if ids != [] {
      FilterMapIndices(ids[1..], results, picked[1..]);
      assert picked == [picked[0]] + picked[1..];
    }
  }

  /** Without cancellation every finished run has collected every result exactly once: the schedule
      only decides the order. */
  lemma ScheduleOnlyOrders<R(!new)>(e: Env<R>, run: seq<State<R>>)
    requires Run(e, run) && !e.mayCancel && (e.stopsOnCancel ==> e.cancelled !in e.results)
    requires Finished(e, run[|run| - 1])
    ensures var s := run[|run| - 1];
            s.received <= |s.sent| && |Received(s)| == |e.results| && multiset(Received(s)) == multiset(e.results)
  {
    var s := run[|run| - 1];
    SafeAlways(e, run, |run| - 1);
    StillCollecting(e, run, |run| - 1);
    SentAtMost(e, s);
    var ids := seq(|s.sent|, i requires 0 <= i < |s.sent| => s.sent[i].0);
    var f := (i: nat) => if i < |e.results| then Some(e.results[i]) else None;
    DistinctBelow(ids, |e.results|);
    forall k ensures k in ids <==> k in Range(|e.results|) {
      assert 0 <= k < |e.results| ==> Range(|e.results|)[k] == k;
    }
    SameDistinctMembers(ids, Range(|e.results|));
    FilterMapIndices(ids, e.results, Received(s));
    FilterMapIndices(Range(|e.results|), e.results, e.results);
    FilterMapPermutation(ids, Range(|e.results|), f);
  }

  /** Without a cancelled result the collector never returns early. */
  lemma {:induction false} StillCollecting<R(!new)>(e: Env<R>, run: seq<State<R>>, i: nat)
    requires Run(e, run) && i < |run| && !e.mayCancel && (e.stopsOnCancel ==> e.cancelled !in e.results)
    ensures run[i].collecting
  {
    if i > 0 {
      StillCollecting(e, run, i - 1);
      SafeAlways(e, run, i - 1);
      var s, t := run[i - 1], run[i];
      if CollectorStep(e, s, t) {
        assert e.Yields(s.sent[s.received].0, s.sent[s.received].1);
      } else {
        var w :| 0 <= w < |s.workers| && WorkerStep(e, s, t, w);
      }
    }
  }
}
