/**
  The resumable batch-synthesis driver (`main` of generate_tts_azure_db.py).

  The phrases table is a map from id to row; the output directory is the set
  of ids whose `{id:06d}.mp3` exists and is non-empty (the name is injective,
  see module Artifact); the speech provider is an oracle giving the reply to
  the k-th call of the run. The table is the rows as the run's own connection
  sees them: an UPDATE is visible to the next page query at once, committed or
  not. What `conn.close()` leaves in the database is `CommittedAsWritten`.
*/
module Driver {
  import opened Wrappers
  import opened Ordering
  import opened Synthesis

  /** A row of `phrases`; `attempts` and `error` are nullable columns. */
  datatype Row = Row(phrase: string, ok: bool, attempts: Option<int>, error: Option<string>)

  type Table = map<int, Row>

  /**
    The command-line options the loop depends on. `--out-dir`, `--language`
    and `--voice` are passed through to the provider and do not steer the loop.
  */
  datatype Config = Config(
    batchSize: int,      // --batch-size, the LIMIT of each page query
    maxPhrases: int,     // --max-phrases, 0 or less means no cap
    maxAttempts: int,    // --max-attempts
    sleepOnError: real,  // --sleep-on-error, in seconds
    dryRun: bool)        // --dry-run

  /**
    What the provider does on one call: the result it reports and whether a
    non-empty file is at the destination afterwards.
  */
  datatype Reply = Reply(result: SpeechResult, wroteAudio: bool)

  /** `tts_attempts or 0`. */
  function AttemptsOrZero(a: Option<int>): int
  {
    a.GetOr(0)
  }

  /**
    `tts_ok = false AND tts_attempts < max_attempts` under SQL's rules: a NULL
    attempt count makes the comparison unknown, so such a row is never selected.
  */
  predicate Eligible(r: Row, maxAttempts: int)
  {
    !r.ok && r.attempts.Some? && r.attempts.value < maxAttempts
  }

  function EligibleIds(table: Table, maxAttempts: int): set<int>
  {
    set id | id in table && Eligible(table[id], maxAttempts)
  }

  /** `SELECT COUNT(*) ... WHERE tts_ok = false AND tts_attempts < max_attempts`. */
  function CountEligible(table: Table, maxAttempts: int): (c: nat)
    ensures c <= |table|
  {
    CardinalityMonotone(EligibleIds(table, maxAttempts), table.Keys);
    |EligibleIds(table, maxAttempts)|
  }

  /** The per-run target: the cap when it is set and smaller, otherwise everything pending. */
  function TotalTarget(maxPhrases: int, pending: nat): (t: nat)
    ensures t <= pending
    ensures maxPhrases > 0 ==> t <= maxPhrases
    ensures t == pending || t == maxPhrases
    ensures maxPhrases <= 0 ==> t == pending
  {
    if maxPhrases > 0 && maxPhrases < pending then maxPhrases else pending
  }

  /**
    One page query: the eligible ids in ascending order, at most `batchSize`
    of them, always starting again from the smallest eligible id. The
    database rejects a negative LIMIT, which is the None case.
  */
  function FetchPage(table: Table, maxAttempts: int, batchSize: int): (page: Option<seq<int>>)
    ensures page.None? <==> batchSize < 0
    ensures page.Some? ==>
      var ids := page.value;
      |ids| == (if batchSize < CountEligible(table, maxAttempts) then batchSize else CountEligible(table, maxAttempts)) &&
      Increasing(ids) &&
      (forall i :: 0 <= i < |ids| ==> ids[i] in table && Eligible(table[ids[i]], maxAttempts)) &&
      (forall id, i :: id in EligibleIds(table, maxAttempts) && id !in ids && 0 <= i < |ids| ==> ids[i] < id)
  {
    if batchSize < 0 then None
    else
      var eligible := EligibleIds(table, maxAttempts);
      var k := if batchSize < |eligible| then batchSize else |eligible|;
      SmallestFirst(eligible, k);
      Some(SortedElements(eligible)[..k])
  }

  /** Which of the three paths a row took. */
  datatype Kind = Reconciled | Previewed | Synthesized(ok: bool)

  /**
    The path a row takes: reconciled when its artifact is there outside
    dry-run, previewed in dry-run, and otherwise handed to the provider,
    successfully exactly when the reply is a completed synthesis.
  */
  function KindOf(cfg: Config, files: set<int>, id: int, reply: Reply): (k: Kind)
    ensures k == Reconciled <==> id in files && !cfg.dryRun
    ensures k == Previewed <==> cfg.dryRun
    ensures k.Synthesized? ==> (k.ok <==> reply.result.reason == SynthesizingAudioCompleted)
  {
    if id in files && !cfg.dryRun then Reconciled
    else if cfg.dryRun then Previewed
    else Synthesized(reply.result.reason == SynthesizingAudioCompleted)
  }

  datatype Effect = Effect(table: Table, files: set<int>, kind: Kind)

  /**
    The body of the inner loop for one fetched row: `table` and `files` are
    the current state, `fetched` is the row as the page query returned it and
    `reply` is what the provider would answer if it were called now.
  */
  function ProcessRow(cfg: Config, table: Table, files: set<int>, id: int, fetched: Row, reply: Reply): (e: Effect)
    requires id in table
    ensures e.kind == KindOf(cfg, files, id, reply)
  {
    var row := table[id];
    if id in files && !cfg.dryRun then
      Effect(table[id := row.(ok := true, error := None)], files, Reconciled)
    else if cfg.dryRun then
      Effect(table, files, Previewed)
    else
      var outcome := SynthesisOutcome(reply.result);
      var attempts := AttemptsOrZero(fetched.attempts) + 1;
      var files' := if reply.wroteAudio then files + {id} else files;
      Effect(table[id := row.(ok := outcome.ok, attempts := Some(attempts), error := outcome.error)],
             files', Synthesized(outcome.ok))
  }

  /** What processing one row does to the table and the directory, path by path. */
  lemma ProcessRowEffect(cfg: Config, table: Table, files: set<int>, id: int, fetched: Row, reply: Reply)
    requires id in table
    ensures var e := ProcessRow(cfg, table, files, id, fetched, reply);
      // only this row can change, and never its text
      && e.table.Keys == table.Keys
      && (forall other :: other in table && other != id ==> e.table[other] == table[other])
      && e.table[id].phrase == table[id].phrase
      // artifacts are never removed, and only this row's can appear
      && files <= e.files <= files + {id}
      // an existing non-empty artifact outside dry-run: mark done, no provider call
      && (e.kind == Reconciled <==> id in files && !cfg.dryRun)
      && (e.kind == Reconciled ==>
            e.table[id].ok && e.table[id].error.None? &&
            e.table[id].attempts == table[id].attempts && e.files == files)
      // dry-run: nothing changes and the row is only previewed
      && (e.kind == Previewed <==> cfg.dryRun)
      && (cfg.dryRun ==> e.table == table && e.files == files)
      // otherwise the provider is called once, the attempt count goes up by one
      // and the row records synthesize_to_file's outcome and message
      && (e.kind.Synthesized? ==>
            e.table[id].attempts == Some(AttemptsOrZero(fetched.attempts) + 1) &&
            (e.kind.ok <==> reply.result.reason == SynthesizingAudioCompleted) &&
            e.table[id].ok == e.kind.ok &&
            (e.kind.ok ==> e.table[id].error.None?) &&
            e.table[id].error == SynthesisOutcome(reply.result).error &&
            (id in e.files <==> id in files || reply.wroteAudio))
  {
  }

  /** The table invariant of the data model: a row marked done has no error and has its artifact. */
  ghost predicate Consistent(table: Table, files: set<int>)
  {
    forall id :: id in table && table[id].ok ==> id in files && table[id].error.None?
  }

  /** A provider that reports a completed synthesis only after writing a non-empty file. */
  ghost predicate Honest(provider: nat -> Reply)
  {
    forall k: nat :: provider(k).result.reason == SynthesizingAudioCompleted ==> provider(k).wroteAudio
  }

  /** Processing a row keeps the table consistent with the directory when the provider is honest. */
  lemma ProcessRowConsistent(cfg: Config, table: Table, files: set<int>, id: int, fetched: Row, reply: Reply)
    requires id in table && Consistent(table, files)
    requires reply.result.reason == SynthesizingAudioCompleted ==> reply.wroteAudio
    ensures var e := ProcessRow(cfg, table, files, id, fetched, reply); Consistent(e.table, e.files)
  {
    ProcessRowEffect(cfg, table, files, id, fetched, reply);
    var e := ProcessRow(cfg, table, files, id, fetched, reply);
    forall other | other in e.table && e.table[other].ok
      ensures other in e.files && e.table[other].error.None?
    {
      if other != id {
        assert e.table[other] == table[other];
      }
    }
  }

  /**
    A row that fails but stays under the attempt cap is still eligible, so when it
    had the smallest eligible id the next page query returns it first again: the
    same run retries it.
  */
  lemma FailedRowIsFetchedAgain(cfg: Config, table: Table, files: set<int>, id: int, reply: Reply)
    requires !cfg.dryRun && cfg.batchSize > 0
    requires id in table && id !in files
    requires var p := FetchPage(table, cfg.maxAttempts, cfg.batchSize); p.Some? && |p.value| > 0 && p.value[0] == id
    requires reply.result.reason != SynthesizingAudioCompleted
    requires AttemptsOrZero(table[id].attempts) + 1 < cfg.maxAttempts
    ensures var e := ProcessRow(cfg, table, files, id, table[id], reply);
      var p := FetchPage(e.table, cfg.maxAttempts, cfg.batchSize);
      p.Some? && |p.value| > 0 && p.value[0] == id
  {
    ProcessRowEffect(cfg, table, files, id, table[id], reply);
    var e := ProcessRow(cfg, table, files, id, table[id], reply);
    var before := FetchPage(table, cfg.maxAttempts, cfg.batchSize).value;
    assert Eligible(e.table[id], cfg.maxAttempts);
    assert EligibleIds(e.table, cfg.maxAttempts) <= EligibleIds(table, cfg.maxAttempts);
    assert id in EligibleIds(e.table, cfg.maxAttempts);
    var after := FetchPage(e.table, cfg.maxAttempts, cfg.batchSize).value;
    assert |after| > 0;
  }

  // ---------------------------------------------------------------------
  // The run as a replay of its row steps
  // ---------------------------------------------------------------------

  /**
    What the rows processed so far have left: the table, the directory, the
    ids handed to the provider in call order, and the path each row took.
  */
  datatype Trace = Trace(table: Table, files: set<int>, calls: seq<int>, kinds: seq<Kind>)

  function Start(table: Table, files: set<int>): Trace
  {
    Trace(table, files, [], [])
  }

  /**
    One row of the inner loop. The fetched row is the row as it stands: a page
    lists each id once and processing a row changes no other row, so the
    page's copy of a row is still current when its turn comes. The reply is
    the provider's answer to the next call.
  */
  function Step(cfg: Config, provider: nat -> Reply, t: Trace, id: int): (t': Trace)
    requires id in t.table
    ensures t'.table.Keys == t.table.Keys
    ensures var k := KindOf(cfg, t.files, id, provider(|t.calls|));
      t'.kinds == t.kinds + [k] && t'.calls == (if k.Synthesized? then t.calls + [id] else t.calls) &&
      (k == Reconciled ==> t'.table[id].ok)
    ensures t.files <= t'.files
    ensures forall other :: other in t.table && other != id ==> t'.table[other] == t.table[other]
  {
    var e := ProcessRow(cfg, t.table, t.files, id, t.table[id], provider(|t.calls|));
    Trace(e.table, e.files, if e.kind.Synthesized? then t.calls + [id] else t.calls, t.kinds + [e.kind])
  }

  /** The rows of `order` processed one after the other, from `t0`. */
  function Replay(cfg: Config, provider: nat -> Reply, t0: Trace, order: seq<int>): (t: Trace)
    requires forall i :: 0 <= i < |order| ==> order[i] in t0.table
    ensures t.table.Keys == t0.table.Keys
    ensures |t.kinds| == |t0.kinds| + |order|
    decreases |order|
  {
    if order == [] then t0
    else Step(cfg, provider, Replay(cfg, provider, t0, order[..|order| - 1]), order[|order| - 1])
  }

  /** The ids of the pages one after the other. */
  function Flatten(pages: seq<seq<int>>): seq<int>
  {
    if pages == [] then [] else Flatten(pages[..|pages| - 1]) + pages[|pages| - 1]
  }

  /**
    The pages of a run: each one is the page query on the table the earlier
    pages left, and it is cut short only where the run reaches `target`. A
    new page is fetched only while the target is not reached, and a fetched
    page that is processed is never empty.
  */
  ghost predicate Paged(cfg: Config, provider: nat -> Reply, t0: Trace, target: nat, pages: seq<seq<int>>)
    ensures Paged(cfg, provider, t0, target, pages) ==>
      forall i :: 0 <= i < |Flatten(pages)| ==> Flatten(pages)[i] in t0.table
    decreases |pages|
  {
    pages == [] ||
    var prior := pages[..|pages| - 1];
    var rows := Flatten(prior);
    && Paged(cfg, provider, t0, target, prior)
    && |rows| < target
    && var page := FetchPage(Replay(cfg, provider, t0, rows).table, cfg.maxAttempts, cfg.batchSize);
    && page.Some? && |page.value| > 0
    && pages[|pages| - 1] == page.value[..if |page.value| < target - |rows| then |page.value| else target - |rows|]
    && (forall j :: 0 <= j < |page.value| ==> page.value[j] in t0.table)
  }

  /**
    The state after `rows` is that of the replay, and `done` counts the
    calls the provider answered with a completed synthesis.
  */
  ghost predicate Replays(cfg: Config, provider: nat -> Reply, table0: Table, files0: set<int>, rows: seq<int>,
                          table: Table, files: set<int>, calls: seq<int>, done: nat)
  {
    && (forall i :: 0 <= i < |rows| ==> rows[i] in table0)
    && var t := Replay(cfg, provider, Start(table0, files0), rows);
    && t.table == table && t.files == files && t.calls == calls
    && done == Successes(provider, |calls|)
  }

  /** `states` follows the first `n` ids of `ids` row by row: each state is the step of the one before. */
  ghost predicate Steps(cfg: Config, provider: nat -> Reply, states: seq<Trace>, ids: seq<int>, n: nat)
  {
    && n <= |ids| && |states| == n + 1
    && forall j :: 0 <= j < n ==> ids[j] in states[j].table && states[j + 1] == Step(cfg, provider, states[j], ids[j])
  }

  lemma StepsExtend(cfg: Config, provider: nat -> Reply, states: seq<Trace>, ids: seq<int>, n: nat, t: Trace)
    requires Steps(cfg, provider, states, ids, n) && n < |ids|
    requires ids[n] in states[n].table && t == Step(cfg, provider, states[n], ids[n])
    ensures Steps(cfg, provider, states + [t], ids, n + 1)
  {
    var states' := states + [t];
    forall j | 0 <= j < n + 1
      ensures ids[j] in states'[j].table && states'[j + 1] == Step(cfg, provider, states'[j], ids[j])
    {
      assert states'[j] == states[j];
    }
  }

  /** A chain of steps is the replay of its ids from its first state. */
  lemma {:induction false} StepsReplay(cfg: Config, provider: nat -> Reply, states: seq<Trace>, ids: seq<int>, n: nat)
    requires Steps(cfg, provider, states, ids, n)
    ensures states[n].table.Keys == states[0].table.Keys
    ensures forall j :: 0 <= j < n ==> ids[j] in states[0].table
    ensures states[n] == Replay(cfg, provider, states[0], ids[..n])
    decreases n
  {
    if n > 0 {
      StepsReplay(cfg, provider, states[..n], ids, n - 1);
      assert ids[..n][..n - 1] == ids[..n - 1];
    }
  }

  /** Replaying two runs of rows one after the other is replaying them together. */
  lemma {:induction false} ReplayAppend(cfg: Config, provider: nat -> Reply, t0: Trace, a: seq<int>, b: seq<int>)
    requires forall i :: 0 <= i < |a| ==> a[i] in t0.table
    requires forall i :: 0 <= i < |b| ==> b[i] in t0.table
    ensures Replay(cfg, provider, t0, a + b) == Replay(cfg, provider, Replay(cfg, provider, t0, a), b)
    decreases |b|
  {
    if b == [] {
      assert a + b == a;
    } else {
      var prior := b[..|b| - 1];
      ReplayAppend(cfg, provider, t0, a, prior);
      assert (a + b)[..|a + b| - 1] == a + prior;
    }
  }

  /**
    A page processed row by row from where the earlier rows left off, with
    done still counting the completed syntheses, continues their replay.
  */
  lemma PageReplays(cfg: Config, provider: nat -> Reply, table0: Table, files0: set<int>, rows: seq<int>,
                    ids: seq<int>, states: seq<Trace>, n: nat, table: Table, files: set<int>, calls: seq<int>, done: nat)
    requires forall i :: 0 <= i < |rows| ==> rows[i] in table0
    requires Steps(cfg, provider, states, ids, n)
    requires states[0] == Replay(cfg, provider, Start(table0, files0), rows)
    requires states[n].table == table && states[n].files == files && states[n].calls == calls
    requires done == Successes(provider, |calls|)
    ensures Replays(cfg, provider, table0, files0, rows + ids[..n], table, files, calls, done)
  {
    StepsReplay(cfg, provider, states, ids, n);
    var page := ids[..n];
    ReplayAppend(cfg, provider, Start(table0, files0), rows, page);
    assert forall i :: 0 <= i < |rows + page| ==> (rows + page)[i] in table0 by {
      forall i | 0 <= i < |rows + page|
        ensures (rows + page)[i] in table0
      {
        if i >= |rows| {
          assert (rows + page)[i] == ids[i - |rows|];
        }
      }
    }
  }

  /** Every call whose reply was a completed synthesis left its row marked done. */
  ghost predicate SuccessesKept(provider: nat -> Reply, table: Table, calls: seq<int>)
  {
    forall k :: 0 <= k < |calls| && provider(k).result.reason == SynthesizingAudioCompleted ==>
      calls[k] in table && table[calls[k]].ok
  }

  lemma StepKeepsSuccesses(cfg: Config, provider: nat -> Reply, table: Table, files: set<int>, calls: seq<int>, id: int,
                           e: Effect, calls': seq<int>)
    requires SuccessesKept(provider, table, calls)
    requires id in table && !table[id].ok
    requires e == ProcessRow(cfg, table, files, id, table[id], provider(|calls|))
    requires calls' == if e.kind.Synthesized? then calls + [id] else calls
    ensures SuccessesKept(provider, e.table, calls')
  {
    ProcessRowEffect(cfg, table, files, id, table[id], provider(|calls|));
  }

  /** How many of the first `n` provider replies were a completed synthesis. */
  function Successes(provider: nat -> Reply, n: nat): (c: nat)
    ensures c <= n
  {
    if n == 0 then 0
    else Successes(provider, n - 1) + (if provider(n - 1).result.reason == SynthesizingAudioCompleted then 1 else 0)
  }

  /**
    Along any replay from the start, the rows counted as done are exactly the
    calls the provider answered with a completed synthesis, and every call is
    counted as done or failed.
  */
  lemma {:induction false} ReplayCounts(cfg: Config, provider: nat -> Reply, table0: Table, files0: set<int>, order: seq<int>)
    requires forall i :: 0 <= i < |order| ==> order[i] in table0
    ensures var t := Replay(cfg, provider, Start(table0, files0), order);
      multiset(t.kinds)[Synthesized(true)] == Successes(provider, |t.calls|) &&
      multiset(t.kinds)[Synthesized(true)] + multiset(t.kinds)[Synthesized(false)] == |t.calls|
    decreases |order|
  {
    if order != [] {
      var prior := order[..|order| - 1];
      ReplayCounts(cfg, provider, table0, files0, prior);
      var t := Replay(cfg, provider, Start(table0, files0), prior);
      var id := order[|order| - 1];
      var k := KindOf(cfg, t.files, id, provider(|t.calls|));
      var t' := Replay(cfg, provider, Start(table0, files0), order);
      assert t' == Step(cfg, provider, t, id);
      CountStep(provider, t.kinds, t.calls, k, t'.kinds, t'.calls, id);
    }
  }

  /** One row keeps the counts of `ReplayCounts`. */
  lemma CountStep(provider: nat -> Reply, kinds: seq<Kind>, calls: seq<int>, k: Kind,
                  kinds': seq<Kind>, calls': seq<int>, id: int)
    requires multiset(kinds)[Synthesized(true)] == Successes(provider, |calls|)
    requires multiset(kinds)[Synthesized(true)] + multiset(kinds)[Synthesized(false)] == |calls|
    requires kinds' == kinds + [k]
    requires calls' == if k.Synthesized? then calls + [id] else calls
    requires k.Synthesized? ==> (k.ok <==> provider(|calls|).result.reason == SynthesizingAudioCompleted)
    ensures multiset(kinds')[Synthesized(true)] == Successes(provider, |calls'|)
    ensures multiset(kinds')[Synthesized(true)] + multiset(kinds')[Synthesized(false)] == |calls'|
  {
    var m, m' := multiset(kinds), multiset(kinds');
    assert m' == m + multiset{k};
    if k.Synthesized? {
      assert |calls'| == |calls| + 1;
      if k.ok {
        assert m'[Synthesized(true)] == m[Synthesized(true)] + 1;
        assert m'[Synthesized(false)] == m[Synthesized(false)];
      } else {
        assert m'[Synthesized(true)] == m[Synthesized(true)];
        assert m'[Synthesized(false)] == m[Synthesized(false)] + 1;
      }
    } else {
      assert m'[Synthesized(true)] == m[Synthesized(true)];
      assert m'[Synthesized(false)] == m[Synthesized(false)];
    }
  }

  /** The replay of a prefix of the rows is the start of the replay of all of them. */
  lemma {:induction false} ReplayPrefix(cfg: Config, provider: nat -> Reply, table0: Table, files0: set<int>,
                                        order: seq<int>, j: nat)
    requires forall i :: 0 <= i < |order| ==> order[i] in table0
    requires j <= |order|
    ensures Replay(cfg, provider, Start(table0, files0), order[..j]).kinds ==
            Replay(cfg, provider, Start(table0, files0), order).kinds[..j]
    decreases |order|
  {
    if j < |order| {
      var prior := order[..|order| - 1];
      assert prior[..j] == order[..j];
      ReplayPrefix(cfg, provider, table0, files0, prior, j);
    } else {
      assert order[..j] == order;
    }
  }

  /**
    A row counted as skipped was reconciled only outside dry-run and only
    when its artifact was there, and previewed only in dry-run.
  */
  lemma SkippedRowsWereReconciled(cfg: Config, provider: nat -> Reply, table0: Table, files0: set<int>,
                                  order: seq<int>, i: nat)
    requires forall i :: 0 <= i < |order| ==> order[i] in table0
    requires i < |order|
    ensures var before := Replay(cfg, provider, Start(table0, files0), order[..i]);
      var kind := Replay(cfg, provider, Start(table0, files0), order).kinds[i];
      (kind == Reconciled <==> !cfg.dryRun && order[i] in before.files) &&
      (kind == Previewed <==> cfg.dryRun)
  {
    var start := Start(table0, files0);
    ReplayPrefix(cfg, provider, table0, files0, order, i + 1);
    ReplaySnoc(cfg, provider, start, order, i);
    var before := Replay(cfg, provider, start, order[..i]);
    var k := KindOf(cfg, before.files, order[i], provider(|before.calls|));
    KindAt(before.kinds, k, Replay(cfg, provider, start, order).kinds, i);
  }

  /** The replay of one more row of `order` is one more step. */
  lemma ReplaySnoc(cfg: Config, provider: nat -> Reply, t0: Trace, order: seq<int>, n: nat)
    requires forall i :: 0 <= i < |order| ==> order[i] in t0.table
    requires n < |order|
    ensures Replay(cfg, provider, t0, order[..n + 1]) ==
            Step(cfg, provider, Replay(cfg, provider, t0, order[..n]), order[n])
  {
    var upto := order[..n + 1];
    assert upto[..n] == order[..n];
  }

  lemma KindAt(kinds: seq<Kind>, k: Kind, all: seq<Kind>, i: nat)
    requires |kinds| == i && i < |all| && all[..i + 1] == kinds + [k]
    ensures all[i] == k
  {
    assert all[i] == all[..i + 1][i];
  }

  /**
    A row that was reconciled stays marked done for the rest of the replay:
    its artifact stays, so each later visit outside dry-run reconciles it again.
  */
  lemma {:induction false} ReconciledRowsStayDone(cfg: Config, provider: nat -> Reply, table0: Table, files0: set<int>,
                                                  order: seq<int>)
    requires forall i :: 0 <= i < |order| ==> order[i] in table0
    ensures var t := Replay(cfg, provider, Start(table0, files0), order);
      forall i :: 0 <= i < |order| && t.kinds[i] == Reconciled ==>
        !cfg.dryRun && order[i] in t.files && t.table[order[i]].ok
    decreases |order|
  {
    if order != [] {
      var n := |order| - 1;
      var prior := order[..n];
      ReconciledRowsStayDone(cfg, provider, table0, files0, prior);
      var t := Replay(cfg, provider, Start(table0, files0), prior);
      var id := order[n];
      var k := KindOf(cfg, t.files, id, provider(|t.calls|));
      var t' := Replay(cfg, provider, Start(table0, files0), order);
      assert t' == Step(cfg, provider, t, id);
      ReconciledStep(cfg, order, t.table, t.files, t.kinds, k, t'.table, t'.files, t'.kinds);
    }
  }

  /** One more row keeps the conclusion of `ReconciledRowsStayDone`. */
  lemma ReconciledStep(cfg: Config, order: seq<int>, table: Table, files: set<int>, kinds: seq<Kind>, k: Kind,
                       table': Table, files': set<int>, kinds': seq<Kind>)
    requires order != [] && |kinds| == |order| - 1
    requires forall i :: 0 <= i < |order| ==> order[i] in table
    requires forall i :: 0 <= i < |order| - 1 && kinds[i] == Reconciled ==>
      !cfg.dryRun && order[i] in files && table[order[i]].ok
    requires var id := order[|order| - 1];
      && kinds' == kinds + [k]
      && (k == Reconciled <==> id in files && !cfg.dryRun)
      && files <= files' && table'.Keys == table.Keys
      && (k == Reconciled ==> table'[id].ok)
      && (forall other :: other in table && other != id ==> table'[other] == table[other])
    ensures forall i :: 0 <= i < |order| && kinds'[i] == Reconciled ==>
      !cfg.dryRun && order[i] in files' && table'[order[i]].ok
  {
    var id := order[|order| - 1];
    forall i | 0 <= i < |order| && kinds'[i] == Reconciled
      ensures !cfg.dryRun && order[i] in files' && table'[order[i]].ok
    {
      if i < |order| - 1 {
        assert kinds[i] == Reconciled;
        if order[i] == id {
          assert k == Reconciled;
        }
      }
    }
  }

  /**
    What the database holds after `conn.close()` as the code is written: an
    update becomes durable only at the `conn.commit()` that follows a provider
    call, which a reconcile does not reach, so whatever the rows after the
    last call changed is rolled back.
  */
  function CommittedAsWritten(cfg: Config, provider: nat -> Reply, t0: Trace, order: seq<int>): (saved: Table)
    requires forall i :: 0 <= i < |order| ==> order[i] in t0.table
    ensures saved.Keys == t0.table.Keys
    decreases |order|
  {
    if order == [] then t0.table
    else
      var prior := order[..|order| - 1];
      if |Replay(cfg, provider, t0, order).calls| > |Replay(cfg, provider, t0, prior).calls|
      then Replay(cfg, provider, t0, order).table
      else CommittedAsWritten(cfg, provider, t0, prior)
  }

  /**
    The table saved at `conn.close()` is the run's view after the first `j`
    rows, where row `j - 1` made the last provider call (`j == 0` when no row
    called it): that row called the provider and no row after it did.
  */
  ghost predicate SavedAfter(cfg: Config, provider: nat -> Reply, t0: Trace, order: seq<int>, j: nat)
    requires forall i :: 0 <= i < |order| ==> order[i] in t0.table
  {
    && j <= |order|
    && CommittedAsWritten(cfg, provider, t0, order) == Replay(cfg, provider, t0, order[..j]).table
    && Replay(cfg, provider, t0, order[..j]).calls == Replay(cfg, provider, t0, order).calls
    && (j > 0 ==> |Replay(cfg, provider, t0, order[..j - 1]).calls| < |Replay(cfg, provider, t0, order[..j]).calls|)
  }

  /**
    For every run, what survives `conn.close()` is the run's view right after
    the row that made the last provider call (the starting table when no row
    called the provider): every later update is rolled back.
  */
  lemma {:induction false} CommittedIsLastCall(cfg: Config, provider: nat -> Reply, t0: Trace, order: seq<int>)
    requires forall i :: 0 <= i < |order| ==> order[i] in t0.table
    ensures exists j: nat :: SavedAfter(cfg, provider, t0, order, j)
    decreases |order|
  {
    if order == [] {
      assert order[..0] == order;
      assert SavedAfter(cfg, provider, t0, order, 0);
    } else {
      var prior := order[..|order| - 1];
      if |Replay(cfg, provider, t0, order).calls| > |Replay(cfg, provider, t0, prior).calls| {
        assert order[..|order|] == order;
        assert SavedAfter(cfg, provider, t0, order, |order|);
      } else {
        CommittedIsLastCall(cfg, provider, t0, prior);
        var j: nat :| SavedAfter(cfg, provider, t0, prior, j);
        NoCallKeepsSaved(cfg, provider, t0, order, j);
      }
    }
  }

  /** A last row that calls nothing keeps the saved table where it was. */
  lemma NoCallKeepsSaved(cfg: Config, provider: nat -> Reply, t0: Trace, order: seq<int>, j: nat)
    requires forall i :: 0 <= i < |order| ==> order[i] in t0.table
    requires order != []
    requires |Replay(cfg, provider, t0, order).calls| <= |Replay(cfg, provider, t0, order[..|order| - 1]).calls|
    requires SavedAfter(cfg, provider, t0, order[..|order| - 1], j)
    ensures SavedAfter(cfg, provider, t0, order, j)
  {
    var prior := order[..|order| - 1];
    NoCallKeepsCalls(cfg, provider, t0, order);
    NoCallNoCommit(cfg, provider, t0, order);
    PriorPrefixes(order, j);
  }

  /** The first `j` ids, and the first `j - 1`, are the same in `order` and in `order` without its last id. */
  lemma PriorPrefixes(order: seq<int>, j: nat)
    requires order != [] && j < |order|
    ensures order[..|order| - 1][..j] == order[..j]
    ensures j > 0 ==> order[..|order| - 1][..j - 1] == order[..j - 1]
  {
  }

  lemma NoCallNoCommit(cfg: Config, provider: nat -> Reply, t0: Trace, order: seq<int>)
    requires forall i :: 0 <= i < |order| ==> order[i] in t0.table
    requires order != []
    requires |Replay(cfg, provider, t0, order).calls| <= |Replay(cfg, provider, t0, order[..|order| - 1]).calls|
    ensures CommittedAsWritten(cfg, provider, t0, order) == CommittedAsWritten(cfg, provider, t0, order[..|order| - 1])
  {
  }

  /** A last row that calls nothing leaves the calls where they were. */
  lemma NoCallKeepsCalls(cfg: Config, provider: nat -> Reply, t0: Trace, order: seq<int>)
    requires forall i :: 0 <= i < |order| ==> order[i] in t0.table
    requires order != []
    requires |Replay(cfg, provider, t0, order).calls| <= |Replay(cfg, provider, t0, order[..|order| - 1]).calls|
    ensures Replay(cfg, provider, t0, order).calls == Replay(cfg, provider, t0, order[..|order| - 1]).calls
  {
    var t := Replay(cfg, provider, t0, order[..|order| - 1]);
    assert Replay(cfg, provider, t0, order) == Step(cfg, provider, t, order[|order| - 1]);
  }

  /**
    One pending row whose artifact is already there, one row per run: the run
    processes it as its only page and reconciles it, but as the code is
    written the update is rolled back, so the next run finds the same row
    pending again and never makes progress.
  */
  lemma ReconcileRolledBack(provider: nat -> Reply)
    ensures var cfg := Config(1, 1, 3, 0.0, false);
      var table0 := map[7 := Row("hello", false, Some(0), None)];
      var t0 := Start(table0, {7});
      && Paged(cfg, provider, t0, 1, [[7]])
      && Replay(cfg, provider, t0, [7]).kinds == [Reconciled]
      && Replay(cfg, provider, t0, [7]).table[7].ok
      && CommittedAsWritten(cfg, provider, t0, [7]) == table0
      && CountEligible(CommittedAsWritten(cfg, provider, t0, [7]), cfg.maxAttempts) == 1
  {
    var cfg := Config(1, 1, 3, 0.0, false);
    var table0 := map[7 := Row("hello", false, Some(0), None)];
    var t0 := Start(table0, {7});
    assert EligibleIds(table0, 3) == {7};
    OnePendingRow(table0, 3, 1, 7);
    assert [[7]][..0] == [] && [7][..0] == [];
    assert Flatten([[7]]) == [7];
    var t := Replay(cfg, provider, t0, [7]);
    assert t == Step(cfg, provider, t0, 7);
  }

  /**
    The same run with every update committed as soon as it is made, the
    evident intent of the reconcile branch: what is saved is then the
    replay's table, so the row stays done and the next run finds nothing
    pending. This is the table the rest of the model carries.
  */
  lemma ReconcileKeptWhenCommitted(provider: nat -> Reply)
    ensures var cfg := Config(1, 1, 3, 0.0, false);
      var table0 := map[7 := Row("hello", false, Some(0), None)];
      var saved := Replay(cfg, provider, Start(table0, {7}), [7]).table;
      && saved[7].ok
      && CountEligible(saved, cfg.maxAttempts) == 0
  {
    var cfg := Config(1, 1, 3, 0.0, false);
    var table0 := map[7 := Row("hello", false, Some(0), None)];
    var t0 := Start(table0, {7});
    var t := Replay(cfg, provider, t0, [7]);
    assert t == Step(cfg, provider, t0, 7);
    assert t.table == map[7 := Row("hello", true, Some(0), None)];
    assert EligibleIds(t.table, 3) == {};
  }

  /** With exactly one eligible row and a positive page size, the page query returns that row alone. */
  lemma OnePendingRow(table: Table, maxAttempts: int, batchSize: int, id: int)
    requires EligibleIds(table, maxAttempts) == {id} && batchSize > 0
    ensures FetchPage(table, maxAttempts, batchSize) == Some([id])
  {
    var ids := FetchPage(table, maxAttempts, batchSize).value;
    assert |ids| == 1;
    assert ids[0] in EligibleIds(table, maxAttempts);
  }

  /** What a run leaves behind, with the four counters it reports. */
  datatype RunResult = RunResult(
    aborted: bool,      // the page query failed (the database refuses a negative LIMIT)
    pending: nat,       // eligible rows at the start
    target: nat,        // total_target
    processed: nat,
    done: nat,
    skipped: nat,
    failed: nat,
    table: Table,
    files: set<int>,
    calls: seq<int>,    // the ids handed to the provider, in call order
    backoffs: nat,      // pauses of --sleep-on-error taken after failures
    pages: seq<seq<int>>) // the ids processed, page by page, in processing order

  /** Ids whose row differs between two tables with the same keys. */
  function ChangedIds(before: Table, after: Table): set<int>
  {
    set id | id in before && id in after && after[id] != before[id]
  }

  /** How many times `id` was handed to the provider. */
  function CallCount(calls: seq<int>, id: int): nat
  {
    multiset(calls)[id]
  }

  /** Which rows may have changed, and how: only touched, initially eligible rows, never their text. */
  ghost predicate FrameInvariant(maxAttempts: int, table0: Table, table: Table, touched: set<int>)
  {
    && table.Keys == table0.Keys
    && touched <= table0.Keys
    && (forall id :: id in table0 ==> table[id].phrase == table0[id].phrase)
    && (forall id :: id in table0 && !Eligible(table0[id], maxAttempts) ==> table[id] == table0[id])
    && (forall id :: id in table0 && id !in touched ==> table[id] == table0[id])
  }

  /** Attempt accounting: one more per provider call, only for eligible rows, never past the cap. */
  ghost predicate AttemptInvariant(maxAttempts: int, table0: Table, table: Table, calls: seq<int>)
    requires table.Keys == table0.Keys
  {
    && (forall id :: id in table0 && table0[id].attempts.Some? ==>
          table[id].attempts == Some(table0[id].attempts.value + CallCount(calls, id)))
    && (forall id :: id in table0 && Eligible(table0[id], maxAttempts) ==>
          table[id].attempts.Some? && table[id].attempts.value <= maxAttempts)
    && (forall k :: 0 <= k < |calls| ==> calls[k] in table0 && Eligible(table0[calls[k]], maxAttempts))
  }

  /** Artifacts are never removed; new ones belong to rows handed to the provider. */
  ghost predicate FilesInvariant(files0: set<int>, files: set<int>, calls: seq<int>)
  {
    && files0 <= files
    && (forall id :: id in files && id !in files0 ==> id in calls)
  }

  /** Everything the run keeps about the table, the directory and the provider calls. */
  ghost predicate RunInvariant(cfg: Config, table0: Table, files0: set<int>, provider: nat -> Reply,
                               table: Table, files: set<int>, calls: seq<int>, touched: set<int>)
  {
    && FrameInvariant(cfg.maxAttempts, table0, table, touched)
    && AttemptInvariant(cfg.maxAttempts, table0, table, calls)
    && FilesInvariant(files0, files, calls)
    && (Consistent(table0, files0) && Honest(provider) ==> Consistent(table, files))
    && (cfg.dryRun ==> table == table0 && files == files0 && calls == [])
  }

  lemma StepKeepsFrame(cfg: Config, table0: Table, table: Table, files: set<int>, touched: set<int>,
                       id: int, reply: Reply)
    requires FrameInvariant(cfg.maxAttempts, table0, table, touched)
    requires id in table && Eligible(table[id], cfg.maxAttempts)
    ensures Eligible(table0[id], cfg.maxAttempts)
    ensures FrameInvariant(cfg.maxAttempts, table0, ProcessRow(cfg, table, files, id, table[id], reply).table, touched + {id})
  {
    ProcessRowEffect(cfg, table, files, id, table[id], reply);
  }

  lemma AttemptsCounted(maxAttempts: int, table0: Table, table: Table, calls: seq<int>)
    requires table.Keys == table0.Keys
    requires AttemptInvariant(maxAttempts, table0, table, calls)
    ensures forall id :: id in table0 && table0[id].attempts.Some? ==>
      table[id].attempts == Some(table0[id].attempts.value + CallCount(calls, id))
  {
  }

  lemma StepKeepsAttempts(cfg: Config, table0: Table, table: Table, files: set<int>, calls: seq<int>,
                          id: int, reply: Reply)
    requires table.Keys == table0.Keys
    requires AttemptInvariant(cfg.maxAttempts, table0, table, calls)
    requires id in table && Eligible(table[id], cfg.maxAttempts) && Eligible(table0[id], cfg.maxAttempts)
    ensures var e := ProcessRow(cfg, table, files, id, table[id], reply);
      var calls' := if e.kind.Synthesized? then calls + [id] else calls;
      AttemptInvariant(cfg.maxAttempts, table0, e.table, calls')
  {
    ProcessRowEffect(cfg, table, files, id, table[id], reply);
    var e := ProcessRow(cfg, table, files, id, table[id], reply);
    var calls' := if e.kind.Synthesized? then calls + [id] else calls;
    AttemptsStep(cfg.maxAttempts, table0, table, calls, id, e.table, calls');
  }

  /** A row whose attempt count goes up exactly when it is handed to the provider keeps the accounting. */
  lemma AttemptsStep(maxAttempts: int, table0: Table, table: Table, calls: seq<int>, id: int,
                     table': Table, calls': seq<int>)
    requires table.Keys == table0.Keys && table'.Keys == table.Keys
    requires AttemptInvariant(maxAttempts, table0, table, calls)
    requires id in table && Eligible(table[id], maxAttempts) && Eligible(table0[id], maxAttempts)
    requires forall other :: other in table && other != id ==> table'[other] == table[other]
    requires || (calls' == calls + [id] && table'[id].attempts == Some(AttemptsOrZero(table[id].attempts) + 1))
             || (calls' == calls && table'[id].attempts == table[id].attempts)
    ensures AttemptInvariant(maxAttempts, table0, table', calls')
  {
    assert multiset(calls') == multiset(calls) + (if calls' == calls then multiset{} else multiset{id});
    forall x | x in table0 && table0[x].attempts.Some?
      ensures table'[x].attempts == Some(table0[x].attempts.value + CallCount(calls', x))
    {
      if x != id {
        assert table'[x] == table[x] && CallCount(calls', x) == CallCount(calls, x);
      }
    }
    forall k | 0 <= k < |calls'|
      ensures calls'[k] in table0 && Eligible(table0[calls'[k]], maxAttempts)
    {
      if k < |calls| {
        assert calls'[k] == calls[k];
      }
    }
  }

  lemma StepKeepsFiles(cfg: Config, files0: set<int>, table: Table, files: set<int>, calls: seq<int>,
                       id: int, reply: Reply)
    requires FilesInvariant(files0, files, calls)
    requires id in table
    ensures var e := ProcessRow(cfg, table, files, id, table[id], reply);
      var calls' := if e.kind.Synthesized? then calls + [id] else calls;
      FilesInvariant(files0, e.files, calls')
  {
    ProcessRowEffect(cfg, table, files, id, table[id], reply);
  }

  /** One row processed from an eligible snapshot keeps the run invariant, with the row counted as touched. */
  lemma StepKeepsInvariant(cfg: Config, table0: Table, files0: set<int>, provider: nat -> Reply,
                           table: Table, files: set<int>, calls: seq<int>, touched: set<int>, id: int)
    requires RunInvariant(cfg, table0, files0, provider, table, files, calls, touched)
    requires id in table && Eligible(table[id], cfg.maxAttempts)
    ensures var e := ProcessRow(cfg, table, files, id, table[id], provider(|calls|));
      var calls' := if e.kind.Synthesized? then calls + [id] else calls;
      RunInvariant(cfg, table0, files0, provider, e.table, e.files, calls', touched + {id})
  {
    var reply := provider(|calls|);
    StepKeepsFrame(cfg, table0, table, files, touched, id, reply);
    StepKeepsAttempts(cfg, table0, table, files, calls, id, reply);
    StepKeepsFiles(cfg, files0, table, files, calls, id, reply);
    if Consistent(table0, files0) && Honest(provider) {
      ProcessRowConsistent(cfg, table, files, id, table[id], reply);
    }
  }

  /** The counters as the loop keeps them, against the touched rows and the provider calls. */
  ghost predicate CounterInvariant(cfg: Config, target: nat, processed: nat, done: nat, skipped: nat, failed: nat,
                                   calls: seq<int>, backoffs: nat, touched: set<int>)
  {
    && processed <= target
    && processed == done + skipped + failed
    && |calls| == done + failed
    && backoffs == (if cfg.sleepOnError > 0.0 then failed else 0)
    && |touched| <= processed
    && (cfg.dryRun ==> done == 0 && failed == 0)
  }

  /** One row of the inner loop: the row step of ProcessRow, then the counter of the path it took. */
  method ProcessOne(cfg: Config, table0: Table, files0: set<int>, provider: nat -> Reply, target: nat,
                    table: Table, files: set<int>,
                    processed: nat, done: nat, skipped: nat, failed: nat, calls: seq<int>, backoffs: nat,
                    ghost touched: set<int>, id: int, fetched: Row, ghost t: Trace)
    returns (table': Table, files': set<int>,
             processed': nat, done': nat, skipped': nat, failed': nat, calls': seq<int>, backoffs': nat,
             ghost touched': set<int>)
    requires processed < target
    requires id in table && fetched == table[id] && Eligible(fetched, cfg.maxAttempts)
    requires CounterInvariant(cfg, target, processed, done, skipped, failed, calls, backoffs, touched)
    requires RunInvariant(cfg, table0, files0, provider, table, files, calls, touched)
    requires SuccessesKept(provider, table, calls)
    requires t.table == table && t.files == files && t.calls == calls
    requires done == Successes(provider, |calls|)
    // the row step of the replay, and done still counts the completed syntheses
    ensures var t' := Step(cfg, provider, t, id);
      table' == t'.table && files' == t'.files && calls' == t'.calls
    ensures done' == Successes(provider, |calls'|)
    ensures table'.Keys == table.Keys
    ensures forall other :: other in table && other != id ==> table'[other] == table[other]
    ensures processed' == processed + 1 && touched' == touched + {id}
    ensures CounterInvariant(cfg, target, processed', done', skipped', failed', calls', backoffs', touched')
    ensures RunInvariant(cfg, table0, files0, provider, table', files', calls', touched')
    ensures SuccessesKept(provider, table', calls')
  {
    done', skipped', failed', calls', backoffs' := done, skipped, failed, calls, backoffs;
    var e := ProcessRow(cfg, table, files, id, fetched, provider(|calls|));
    table', files' := e.table, e.files;
    match e.kind {
      case Reconciled =>
        skipped' := skipped' + 1;
      case Previewed =>
        skipped' := skipped' + 1;
      case Synthesized(ok) =>
        calls' := calls' + [id];
        if ok {
          done' := done' + 1;
        } else {
          failed' := failed' + 1;
          if cfg.sleepOnError > 0.0 {
            backoffs' := backoffs' + 1;
          }
        }
    }
    processed' := processed + 1;
    touched' := touched + {id};
    RowCounted(cfg, table0, files0, provider, target, table, files,
               processed, done, skipped, failed, calls, backoffs, touched, id, e,
               processed', done', skipped', failed', calls', backoffs', touched');
  }

  /** Counting one row by the path it took keeps the counter invariant. */
  lemma CountersStep(cfg: Config, target: nat, processed: nat, done: nat, skipped: nat, failed: nat,
                     calls: seq<int>, backoffs: nat, touched: set<int>, id: int, kind: Kind,
                     processed': nat, done': nat, skipped': nat, failed': nat, calls': seq<int>, backoffs': nat,
                     touched': set<int>)
    requires processed < target
    requires CounterInvariant(cfg, target, processed, done, skipped, failed, calls, backoffs, touched)
    requires cfg.dryRun ==> kind == Previewed
    requires processed' == processed + 1 && touched' == touched + {id}
    requires calls' == if kind.Synthesized? then calls + [id] else calls
    requires done' == done + (if kind == Synthesized(true) then 1 else 0)
    requires skipped' == skipped + (if kind.Synthesized? then 0 else 1)
    requires failed' == failed + (if kind == Synthesized(false) then 1 else 0)
    requires backoffs' == backoffs + (if kind == Synthesized(false) && cfg.sleepOnError > 0.0 then 1 else 0)
    ensures CounterInvariant(cfg, target, processed', done', skipped', failed', calls', backoffs', touched')
  {
    assert |touched'| <= |touched| + 1;
  }

  /** The counters of the path a row took keep every invariant of the loop. */
  lemma RowCounted(cfg: Config, table0: Table, files0: set<int>, provider: nat -> Reply, target: nat,
                   table: Table, files: set<int>,
                   processed: nat, done: nat, skipped: nat, failed: nat, calls: seq<int>, backoffs: nat,
                   touched: set<int>, id: int, e: Effect,
                   processed': nat, done': nat, skipped': nat, failed': nat, calls': seq<int>, backoffs': nat,
                   touched': set<int>)
    requires processed < target
    requires id in table && Eligible(table[id], cfg.maxAttempts)
    requires CounterInvariant(cfg, target, processed, done, skipped, failed, calls, backoffs, touched)
    requires RunInvariant(cfg, table0, files0, provider, table, files, calls, touched)
    requires SuccessesKept(provider, table, calls)
    requires done == Successes(provider, |calls|)
    requires e == ProcessRow(cfg, table, files, id, table[id], provider(|calls|))
    requires processed' == processed + 1 && touched' == touched + {id}
    requires calls' == if e.kind.Synthesized? then calls + [id] else calls
    requires done' == done + (if e.kind == Synthesized(true) then 1 else 0)
    requires skipped' == skipped + (if e.kind.Synthesized? then 0 else 1)
    requires failed' == failed + (if e.kind == Synthesized(false) then 1 else 0)
    requires backoffs' == backoffs + (if e.kind == Synthesized(false) && cfg.sleepOnError > 0.0 then 1 else 0)
    ensures e.table.Keys == table.Keys
    ensures forall other :: other in table && other != id ==> e.table[other] == table[other]
    ensures CounterInvariant(cfg, target, processed', done', skipped', failed', calls', backoffs', touched')
    ensures RunInvariant(cfg, table0, files0, provider, e.table, e.files, calls', touched')
    ensures done' == Successes(provider, |calls'|)
    ensures SuccessesKept(provider, e.table, calls')
  {
    StepKeepsInvariant(cfg, table0, files0, provider, table, files, calls, touched, id);
    ProcessRowEffect(cfg, table, files, id, table[id], provider(|calls|));
    CountersStep(cfg, target, processed, done, skipped, failed, calls, backoffs, touched, id, e.kind,
                 processed', done', skipped', failed', calls', backoffs', touched');
    StepKeepsSuccesses(cfg, provider, table, files, calls, id, e, calls');
    SuccessesStep(provider, calls, done, id, e.kind, calls', done');
  }

  /** A provider call counted as done exactly when its reply is a completed synthesis keeps done counting them. */
  lemma SuccessesStep(provider: nat -> Reply, calls: seq<int>, done: nat, id: int, kind: Kind, calls': seq<int>, done': nat)
    requires done == Successes(provider, |calls|)
    requires kind.Synthesized? ==> (kind.ok <==> provider(|calls|).result.reason == SynthesizingAudioCompleted)
    requires calls' == if kind.Synthesized? then calls + [id] else calls
    requires done' == done + (if kind == Synthesized(true) then 1 else 0)
    ensures done' == Successes(provider, |calls'|)
  {
  }

  /**
    The inner `for row in rows` loop over one page: each row is processed in
    page order until the run's target is reached.
  */
  method ProcessPage(cfg: Config, table0: Table, files0: set<int>, provider: nat -> Reply, target: nat,
                     ids: seq<int>, table: Table, files: set<int>,
                     processed: nat, done: nat, skipped: nat, failed: nat, calls: seq<int>, backoffs: nat,
                     ghost touched: set<int>, ghost rows: seq<int>)
    returns (table': Table, files': set<int>,
             processed': nat, done': nat, skipped': nat, failed': nat, calls': seq<int>, backoffs': nat,
             ghost touched': set<int>, taken: seq<int>)
    requires processed < target && |ids| > 0
    requires Increasing(ids)
    requires forall i :: 0 <= i < |ids| ==> ids[i] in table && Eligible(table[ids[i]], cfg.maxAttempts)
    requires CounterInvariant(cfg, target, processed, done, skipped, failed, calls, backoffs, touched)
    requires RunInvariant(cfg, table0, files0, provider, table, files, calls, touched)
    requires Replays(cfg, provider, table0, files0, rows, table, files, calls, done)
    requires SuccessesKept(provider, table, calls)
    // the page is processed in its order, and stops only where the target is reached
    ensures taken == ids[..if |ids| < target - processed then |ids| else target - processed]
    ensures processed' == processed + |taken|
    // each row as ProcessRow handles it, and done counts the completed syntheses
    ensures Replays(cfg, provider, table0, files0, rows + taken, table', files', calls', done')
    ensures SuccessesKept(provider, table', calls')
    ensures CounterInvariant(cfg, target, processed', done', skipped', failed', calls', backoffs', touched')
    ensures RunInvariant(cfg, table0, files0, provider, table', files', calls', touched')
  {
    table', files' := table, files;
    processed', done', skipped', failed', calls', backoffs' := processed, done, skipped, failed, calls, backoffs;
    touched' := touched;
    var snapshot := table;
    var i := 0;
    // the states the rows of this page pass through, from the replay of the earlier rows
    ghost var states := [Replay(cfg, provider, Start(table0, files0), rows)];
    while i < |ids|
      invariant 0 <= i <= |ids|
      invariant processed' == processed + i
      invariant CounterInvariant(cfg, target, processed', done', skipped', failed', calls', backoffs', touched')
      invariant RunInvariant(cfg, table0, files0, provider, table', files', calls', touched')
      invariant SuccessesKept(provider, table', calls')
      invariant done' == Successes(provider, |calls'|)
      invariant Steps(cfg, provider, states, ids, i) && states[0] == Replay(cfg, provider, Start(table0, files0), rows)
      invariant states[i].table == table' && states[i].files == files' && states[i].calls == calls'
      invariant forall j :: i <= j < |ids| ==> ids[j] in table' && table'[ids[j]] == snapshot[ids[j]]
    {
      if processed' >= target {
        break;
      }
      var id := ids[i];
      ghost var t := states[i];
      table', files', processed', done', skipped', failed', calls', backoffs', touched' :=
        ProcessOne(cfg, table0, files0, provider, target, table', files',
                   processed', done', skipped', failed', calls', backoffs', touched', id, snapshot[id], t);
      StepsExtend(cfg, provider, states, ids, i, Step(cfg, provider, t, id));
      states := states + [Step(cfg, provider, t, id)];
      i := i + 1;
    }
    taken := ids[..i];
    PageReplays(cfg, provider, table0, files0, rows, ids, states, i, table', files', calls', done');
  }

  /** A fetched, non-empty page processed as far as the target allows, recorded as the run's next page. */
  method TakePage(cfg: Config, table0: Table, files0: set<int>, provider: nat -> Reply, target: nat,
                  ids: seq<int>, table: Table, files: set<int>,
                  processed: nat, done: nat, skipped: nat, failed: nat, calls: seq<int>, backoffs: nat,
                  ghost touched: set<int>, pages: seq<seq<int>>)
    returns (table': Table, files': set<int>,
             processed': nat, done': nat, skipped': nat, failed': nat, calls': seq<int>, backoffs': nat,
             ghost touched': set<int>, pages': seq<seq<int>>)
    requires processed < target
    requires FetchPage(table, cfg.maxAttempts, cfg.batchSize) == Some(ids) && |ids| > 0
    requires CounterInvariant(cfg, target, processed, done, skipped, failed, calls, backoffs, touched)
    requires RunInvariant(cfg, table0, files0, provider, table, files, calls, touched)
    requires Paged(cfg, provider, Start(table0, files0), target, pages)
    requires |Flatten(pages)| == processed
    requires Replays(cfg, provider, table0, files0, Flatten(pages), table, files, calls, done)
    requires SuccessesKept(provider, table, calls)
    ensures processed < processed'
    ensures CounterInvariant(cfg, target, processed', done', skipped', failed', calls', backoffs', touched')
    ensures RunInvariant(cfg, table0, files0, provider, table', files', calls', touched')
    ensures Paged(cfg, provider, Start(table0, files0), target, pages')
    ensures |Flatten(pages')| == processed'
    ensures Replays(cfg, provider, table0, files0, Flatten(pages'), table', files', calls', done')
    ensures SuccessesKept(provider, table', calls')
  {
    var taken;
    table', files', processed', done', skipped', failed', calls', backoffs', touched', taken :=
      ProcessPage(cfg, table0, files0, provider, target, ids, table, files,
                  processed, done, skipped, failed, calls, backoffs, touched, Flatten(pages));
    PageExtendsRun(cfg, provider, table0, files0, target, pages, ids, taken,
                   table, files, calls, done, table', files', calls', done');
    pages' := pages + [taken];
  }

  /**
    The outer `while processed < total_target` loop: fetch a page, stop on a
    refused or an empty one, otherwise process it and go on.
  */
  method ProcessPages(cfg: Config, table0: Table, files0: set<int>, provider: nat -> Reply, pending: nat, target: nat)
    returns (r: RunResult, ghost touched: set<int>)
    requires pending == CountEligible(table0, cfg.maxAttempts)
    requires target == TotalTarget(cfg.maxPhrases, pending) && target > 0
    ensures r.pending == pending && r.target == target
    ensures CounterInvariant(cfg, target, r.processed, r.done, r.skipped, r.failed, r.calls, r.backoffs, touched)
    ensures RunInvariant(cfg, table0, files0, provider, r.table, r.files, r.calls, touched)
    ensures Paged(cfg, provider, Start(table0, files0), target, r.pages)
    ensures |Flatten(r.pages)| == r.processed
    ensures Replays(cfg, provider, table0, files0, Flatten(r.pages), r.table, r.files, r.calls, r.done)
    ensures SuccessesKept(provider, r.table, r.calls)
    ensures r.aborted <==> cfg.batchSize < 0
    ensures cfg.batchSize > 0 ==> r.processed == target
    ensures cfg.batchSize <= 0 ==> r.processed == 0
    ensures r.processed == 0 ==> r.table == table0 && r.files == files0 && r.calls == [] && touched == {}
    ensures !r.aborted && r.processed < target ==> FetchPage(r.table, cfg.maxAttempts, cfg.batchSize) == Some([])
  {
    var table, files := table0, files0;
    var processed, done, skipped, failed := 0, 0, 0, 0;
    var calls: seq<int> := [];
    var backoffs := 0;
    var aborted := false;
    touched := {};
    var pages: seq<seq<int>> := [];

    while processed < target
      invariant CounterInvariant(cfg, target, processed, done, skipped, failed, calls, backoffs, touched)
      invariant RunInvariant(cfg, table0, files0, provider, table, files, calls, touched)
      invariant cfg.batchSize <= 0 ==> processed == 0
      invariant processed == 0 ==> table == table0 && files == files0 && calls == [] && touched == {} && pages == []
      invariant Paged(cfg, provider, Start(table0, files0), target, pages)
      invariant |Flatten(pages)| == processed
      invariant Replays(cfg, provider, table0, files0, Flatten(pages), table, files, calls, done)
      invariant SuccessesKept(provider, table, calls)
      invariant !aborted
      decreases target - processed
    {
      var page := FetchPage(table, cfg.maxAttempts, cfg.batchSize);
      if page.None? {
        aborted := true;
        break;
      }
      var ids := page.value;
      if |ids| == 0 {
        if cfg.batchSize > 0 {
          NothingLeftMeansTargetReached(cfg, table0, table, touched);
        }
        break;
      }
      table, files, processed, done, skipped, failed, calls, backoffs, touched, pages :=
        TakePage(cfg, table0, files0, provider, target, ids, table, files,
                 processed, done, skipped, failed, calls, backoffs, touched, pages);
    }

    r := RunResult(aborted, pending, target, processed, done, skipped, failed, table, files, calls, backoffs, pages);
  }

  /**
    `main` from the count of pending rows to the summary. `provider(k)` is the
    reply to the k-th synthesis call of the run.
  */
  method Run(cfg: Config, table0: Table, files0: set<int>, provider: nat -> Reply) returns (r: RunResult)
    // the target and the counters
    ensures r.pending == CountEligible(table0, cfg.maxAttempts)
    ensures r.target == TotalTarget(cfg.maxPhrases, r.pending)
    ensures r.processed == r.done + r.skipped + r.failed
    ensures r.processed <= r.target
    ensures |r.calls| == r.done + r.failed
    ensures r.backoffs == if cfg.sleepOnError > 0.0 then r.failed else 0
    // how the run ends: with a positive page size it always reaches its target
    ensures r.aborted <==> r.target > 0 && cfg.batchSize < 0
    ensures cfg.batchSize > 0 ==> r.processed == r.target
    ensures cfg.batchSize <= 0 ==> r.processed == 0
    ensures r.processed == 0 ==> r.table == table0 && r.files == files0 && r.calls == []
    // what may change in the table
    ensures r.table.Keys == table0.Keys
    ensures forall id :: id in table0 ==> r.table[id].phrase == table0[id].phrase
    ensures forall id :: id in table0 && !Eligible(table0[id], cfg.maxAttempts) ==> r.table[id] == table0[id]
    ensures |ChangedIds(table0, r.table)| <= r.processed
    // attempt accounting: one more per provider call, never past the cap
    ensures forall id :: id in table0 && table0[id].attempts.Some? ==>
      r.table[id].attempts == Some(table0[id].attempts.value + CallCount(r.calls, id))
    ensures forall id :: id in table0 && Eligible(table0[id], cfg.maxAttempts) ==>
      r.table[id].attempts.value <= cfg.maxAttempts
    ensures forall k :: 0 <= k < |r.calls| ==> r.calls[k] in table0 && Eligible(table0[r.calls[k]], cfg.maxAttempts)
    // artifacts are never removed; new ones come only from provider calls
    ensures files0 <= r.files
    ensures forall id :: id in r.files && id !in files0 ==> id in r.calls
    ensures Consistent(table0, files0) && Honest(provider) ==> Consistent(r.table, r.files)
    // dry-run writes nothing, calls nothing, and counts every row as skipped
    ensures cfg.dryRun ==> r.table == table0 && r.files == files0 && r.calls == []
    ensures cfg.dryRun ==> r.skipped == r.processed && r.done == 0 && r.failed == 0
    // row by row: the pages are the successive page queries, and the table, the
    // directory, the calls and the counters are ProcessRow replayed over their rows
    ensures Paged(cfg, provider, Start(table0, files0), r.target, r.pages)
    ensures |Flatten(r.pages)| == r.processed
    ensures var t := Replay(cfg, provider, Start(table0, files0), Flatten(r.pages));
      && r.table == t.table && r.files == t.files && r.calls == t.calls
      && r.done == multiset(t.kinds)[Synthesized(true)]
      && r.failed == multiset(t.kinds)[Synthesized(false)]
      && r.skipped == multiset(t.kinds)[Reconciled] + multiset(t.kinds)[Previewed]
    // short of its target, the run stopped on a refused or an empty page
    ensures !r.aborted && r.processed < r.target ==> FetchPage(r.table, cfg.maxAttempts, cfg.batchSize) == Some([])
    // done counts the completed syntheses, and each of them left its row marked done
    ensures r.done == Successes(provider, |r.calls|)
    ensures forall k :: 0 <= k < |r.calls| && provider(k).result.reason == SynthesizingAudioCompleted ==>
      r.table[r.calls[k]].ok
  {
    var pending := CountEligible(table0, cfg.maxAttempts);
    var target := TotalTarget(cfg.maxPhrases, pending);
    ghost var touched: set<int>;
    if target == 0 {
      r, touched := RunResult(false, pending, target, 0, 0, 0, 0, table0, files0, [], 0, []), {};
      AtStart(cfg, table0, files0, provider);
    } else {
      r, touched := ProcessPages(cfg, table0, files0, provider, pending, target);
    }
    InvariantAtEnd(cfg, table0, files0, provider, r.table, r.files, r.calls, touched, r.processed);
    ReplayAtEnd(cfg, provider, table0, files0, Flatten(r.pages), r.table, r.files, r.calls, r.done, r.skipped, r.failed);
  }

  /** Before the first row the invariants hold, with nothing replayed yet. */
  lemma AtStart(cfg: Config, table0: Table, files0: set<int>, provider: nat -> Reply)
    ensures RunInvariant(cfg, table0, files0, provider, table0, files0, [], {})
    ensures Replays(cfg, provider, table0, files0, [], table0, files0, [], 0)
    ensures SuccessesKept(provider, table0, [])
    ensures Paged(cfg, provider, Start(table0, files0), 0, [])
  {
    assert forall id :: CallCount([], id) == 0;
  }

  /** What the run invariant says about the table, the calls and the directory once the run is over. */
  lemma InvariantAtEnd(cfg: Config, table0: Table, files0: set<int>, provider: nat -> Reply,
                       table: Table, files: set<int>, calls: seq<int>, touched: set<int>, processed: nat)
    requires RunInvariant(cfg, table0, files0, provider, table, files, calls, touched)
    requires |touched| <= processed
    ensures table.Keys == table0.Keys
    ensures forall id :: id in table0 ==> table[id].phrase == table0[id].phrase
    ensures forall id :: id in table0 && !Eligible(table0[id], cfg.maxAttempts) ==> table[id] == table0[id]
    ensures |ChangedIds(table0, table)| <= processed
    ensures forall id :: id in table0 && table0[id].attempts.Some? ==>
      table[id].attempts == Some(table0[id].attempts.value + CallCount(calls, id))
    ensures forall id :: id in table0 && Eligible(table0[id], cfg.maxAttempts) ==>
      table[id].attempts.value <= cfg.maxAttempts
    ensures forall k :: 0 <= k < |calls| ==> calls[k] in table0 && Eligible(table0[calls[k]], cfg.maxAttempts)
    ensures files0 <= files
    ensures forall id :: id in files && id !in files0 ==> id in calls
    ensures Consistent(table0, files0) && Honest(provider) ==> Consistent(table, files)
    ensures cfg.dryRun ==> table == table0 && files == files0 && calls == []
  {
    forall id | id in ChangedIds(table0, table)
      ensures id in touched
    {
    }
    CardinalityMonotone(ChangedIds(table0, table), touched);
    AttemptsCounted(cfg.maxAttempts, table0, table, calls);
  }

  /** What the replay says about the counters once the run is over. */
  lemma ReplayAtEnd(cfg: Config, provider: nat -> Reply, table0: Table, files0: set<int>, rows: seq<int>,
                    table: Table, files: set<int>, calls: seq<int>, done: nat, skipped: nat, failed: nat)
    requires Replays(cfg, provider, table0, files0, rows, table, files, calls, done)
    requires SuccessesKept(provider, table, calls)
    requires |rows| == done + skipped + failed && |calls| == done + failed
    ensures var t := Replay(cfg, provider, Start(table0, files0), rows);
      && table == t.table && files == t.files && calls == t.calls
      && done == multiset(t.kinds)[Synthesized(true)]
      && failed == multiset(t.kinds)[Synthesized(false)]
      && skipped == multiset(t.kinds)[Reconciled] + multiset(t.kinds)[Previewed]
    ensures done == Successes(provider, |calls|)
    ensures forall k :: 0 <= k < |calls| && provider(k).result.reason == SynthesizingAudioCompleted ==>
      table[calls[k]].ok
  {
    ReplayCounts(cfg, provider, table0, files0, rows);
    KindTotal(Replay(cfg, provider, Start(table0, files0), rows).kinds);
  }

  /** Every row took one of the four paths. */
  lemma {:induction false} KindTotal(kinds: seq<Kind>)
    ensures var m := multiset(kinds);
      m[Reconciled] + m[Previewed] + m[Synthesized(true)] + m[Synthesized(false)] == |kinds|
  {
    if kinds != [] {
      var prior := kinds[..|kinds| - 1];
      var last := kinds[|kinds| - 1];
      KindTotal(prior);
      assert kinds == prior + [last];
      var m, m' := multiset(prior), multiset(kinds);
      assert m' == m + multiset{last};
      match last
      case Reconciled =>
      case Previewed =>
      case Synthesized(_) =>
    }
  }

  /** A page fetched short of the target and processed as far as the target allows extends the run's pages. */
  lemma PageExtendsRun(cfg: Config, provider: nat -> Reply, table0: Table, files0: set<int>, target: nat,
                       pages: seq<seq<int>>, ids: seq<int>, taken: seq<int>,
                       table: Table, files: set<int>, calls: seq<int>, done: nat,
                       table': Table, files': set<int>, calls': seq<int>, done': nat)
    requires Paged(cfg, provider, Start(table0, files0), target, pages)
    requires |Flatten(pages)| < target
    requires Replays(cfg, provider, table0, files0, Flatten(pages), table, files, calls, done)
    requires FetchPage(table, cfg.maxAttempts, cfg.batchSize) == Some(ids) && |ids| > 0
    requires taken == ids[..if |ids| < target - |Flatten(pages)| then |ids| else target - |Flatten(pages)|]
    requires Replays(cfg, provider, table0, files0, Flatten(pages) + taken, table', files', calls', done')
    ensures Paged(cfg, provider, Start(table0, files0), target, pages + [taken])
    ensures Flatten(pages + [taken]) == Flatten(pages) + taken
    ensures |Flatten(pages + [taken])| == |Flatten(pages)| + |taken|
    ensures Replays(cfg, provider, table0, files0, Flatten(pages + [taken]), table', files', calls', done')
  {
    assert (pages + [taken])[..|pages|] == pages;
  }

  /**
    With a positive page size, an empty page means nothing is eligible any
    more, so every row pending at the start has been touched at least once.
  */
  lemma NothingLeftMeansTargetReached(cfg: Config, table0: Table, table: Table, touched: set<int>)
    requires cfg.batchSize > 0
    requires FrameInvariant(cfg.maxAttempts, table0, table, touched)
    requires FetchPage(table, cfg.maxAttempts, cfg.batchSize).value == []
    ensures EligibleIds(table0, cfg.maxAttempts) <= touched
    ensures CountEligible(table0, cfg.maxAttempts) <= |touched|
  {
    UntouchedPendingStillPending(cfg.maxAttempts, table0, table, touched);
    assert EligibleIds(table, cfg.maxAttempts) == {};
    var missed := EligibleIds(table0, cfg.maxAttempts) - touched;
    assert missed == {};
    assert EligibleIds(table0, cfg.maxAttempts) == missed + (EligibleIds(table0, cfg.maxAttempts) * touched);
    CardinalityMonotone(EligibleIds(table0, cfg.maxAttempts), touched);
  }

  /** A row pending at the start that the run has not touched is still pending. */
  lemma UntouchedPendingStillPending(maxAttempts: int, table0: Table, table: Table, touched: set<int>)
    requires FrameInvariant(maxAttempts, table0, table, touched)
    ensures EligibleIds(table0, maxAttempts) - touched <= EligibleIds(table, maxAttempts)
  {
    forall id | id in EligibleIds(table0, maxAttempts) - touched
      ensures id in EligibleIds(table, maxAttempts)
    {
      assert table[id] == table0[id];
    }
  }

  lemma CardinalityMonotone(a: set<int>, b: set<int>)
    requires a <= b
    ensures |a| <= |b|
  {
    assert b == a + (b - a);
  }
}
