/** What the blocks hold that the pipeline builds, block by block and account by account (ingest.go, produceBlocks). */
module PipelineMeaning {
  import opened Primitives
  import opened Layers
  import opened SegmentTree
  import opened Accounts
  import opened AccountObjects
  import opened AccountCache
  import opened Pipeline
  import opened PipelineSafety
  import opened PipelineRuns

  // ----- the balances of an account

  predicate HasEntry(entries: seq<Entry>, a: Account) {
    exists i :: 0 <= i < |entries| && entries[i].account == a
  }

  /** The account's entries in a block, as updates from the block's number on. */
  function EntryUpdates(n: nat, entries: seq<Entry>, a: Account): (u: seq<BalanceUpdate>)
    ensures u != [] <==> HasEntry(entries, a)
  {
    if entries == [] then []
    else
      var before, e := entries[..|entries| - 1], entries[|entries| - 1];
      assert HasEntry(entries, a) <==> HasEntry(before, a) || e.account == a by {
        if e.account == a {
          assert entries[|entries| - 1].account == a;
        }
        if i :| 0 <= i < |before| && before[i].account == a {
          assert entries[i].account == a;
        }
      }
      EntryUpdates(n, before, a) + if e.account == a then [BalanceUpdate(n, e.balance)] else []
  }

  /** The account's updates before the run, followed by those of the first i blocks; block j of the run is number
      start + j. */
  function RunUpdates(cfg: Config, a: Account, i: nat): seq<BalanceUpdate>
    requires i <= |cfg.blocks|
  {
    if i == 0 then LogAt(cfg.log, a)
    else RunUpdates(cfg, a, i - 1) + EntryUpdates(cfg.start + (i - 1), cfg.blocks[i - 1], a)
  }

  /** The last block of the run, and every 7240th one, records commitments. */
  predicate Recording(cfg: Config, i: nat) {
    i + 1 == |cfg.blocks| || (i + 1) % 7240 == 0
  }

  /** The account has an entry in one of the first i blocks. */
  predicate Touched(cfg: Config, a: Account, i: nat)
    requires i <= |cfg.blocks|
  {
    i > 0 && (HasEntry(cfg.blocks[i - 1], a) || Touched(cfg, a, i - 1))
  }

  /** And in one after the last of them that records commitments. */
  predicate Waiting(cfg: Config, a: Account, i: nat)
    requires i <= |cfg.blocks|
  {
    i > 0 && !Recording(cfg, i - 1) && (HasEntry(cfg.blocks[i - 1], a) || Waiting(cfg, a, i - 1))
  }

  lemma {:induction false} WaitingTouched(cfg: Config, a: Account, i: nat)
    requires i <= |cfg.blocks| && Waiting(cfg, a, i)
    ensures Touched(cfg, a, i)
  {
    if !HasEntry(cfg.blocks[i - 1], a) {
      WaitingTouched(cfg, a, i - 1);
    }
  }

  lemma {:induction false} TouchedUpdates(cfg: Config, a: Account, i: nat)
    requires i <= |cfg.blocks| && Touched(cfg, a, i)
    ensures RunUpdates(cfg, a, i) != []
  {
    if !HasEntry(cfg.blocks[i - 1], a) {
      TouchedUpdates(cfg, a, i - 1);
    }
  }

  // ----- one block

  /** What a block does to one account. */
  ghost predicate EntriesDo(l: Ledger, r: Ledger, u: seq<BalanceUpdate>, a: Account, raw: bool) {
    var log := LogAt(l.log, a) + u;
    && LogAt(r.log, a) == log
    && (if u == [] then ValueAt(r.trie, a) == ValueAt(l.trie, a) && (a in r.hashes <==> a in l.hashes) &&
                        (a in r.hashes ==> r.hashes[a] == l.hashes[a])
        else
          && a in r.hashes && r.hashes[a] == CommitmentAfter(log)
          && ValueAt(r.trie, a) == if raw then Some(RawBalance(u[|u| - 1].balance)) else ValueAt(l.trie, a))
  }

  lemma {:induction false} EntriesApplied(l: Ledger, n: nat, entries: seq<Entry>, raw: bool, a: Account)
    ensures EntriesDo(l, ApplyEntries(l, n, entries, raw), EntryUpdates(n, entries, a), a, raw)
  {
    hide CommitmentAfter, HasEntry;
    if entries != [] {
      var before, e := entries[..|entries| - 1], entries[|entries| - 1];
      EntriesApplied(l, n, before, raw, a);
      OneMoreEntry(l, ApplyEntries(l, n, before, raw), n, EntryUpdates(n, before, a), e, raw, a);
    }
  }

  lemma {:induction false} OneMoreEntry(l: Ledger, m: Ledger, n: nat, u: seq<BalanceUpdate>, e: Entry, raw: bool, a: Account)
    requires EntriesDo(l, m, u, a, raw)
    ensures EntriesDo(l, ApplyEntry(m, n, e, raw), u + if e.account == a then [BalanceUpdate(n, e.balance)] else [], a, raw)
  {
    hide CommitmentAfter;
    if e.account == a {
      assert LogAt(l.log, a) + (u + [BalanceUpdate(n, e.balance)]) == LogAt(l.log, a) + u + [BalanceUpdate(n, e.balance)];
    } else {
      assert u + [] == u;
    }
  }

  // ----- the whole run

  /** What the trie holds for an account after the first i blocks: nothing new before the first entry; the balance of the
      last entry while no block has recorded commitments since; the commitment over all updates so far otherwise. */
  function Expected(cfg: Config, a: Account, i: nat): Option<Value>
    requires i <= |cfg.blocks|
  {
    var u := RunUpdates(cfg, a, i);
    if !Touched(cfg, a, i) then ValueAt(cfg.trie, a)
    else
      TouchedUpdates(cfg, a, i);
      if Waiting(cfg, a, i) then Some(RawBalance(u[|u| - 1].balance)) else Some(CommitmentValue(CommitmentAfter(u)))
  }

  /** The ledger after the first i blocks, for one account. */
  ghost predicate Reached(cfg: Config, l: Ledger, a: Account, i: nat)
    requires i <= |cfg.blocks|
  {
    && LogAt(l.log, a) == RunUpdates(cfg, a, i)
    && (a in l.hashes <==> Waiting(cfg, a, i))
    && (a in l.hashes ==> RunUpdates(cfg, a, i) != [] && l.hashes[a] == CommitmentAfter(RunUpdates(cfg, a, i)))
    && ValueAt(l.trie, a) == Expected(cfg, a, i)
  }

  lemma {:induction false} BlockReached(cfg: Config, l: Ledger, m: Ledger, a: Account, i: nat)
    requires i < |cfg.blocks| && Reached(cfg, l, a, i)
    requires EntriesDo(l, m, EntryUpdates(cfg.start + i, cfg.blocks[i], a), a, !Recording(cfg, i))
    ensures Reached(cfg, if Recording(cfg, i) then Ledger(WithCommitments(m.trie, m.hashes), m.log, map[]) else m, a, i + 1)
  {
    hide CommitmentAfter, HasEntry, EntryUpdates;
    var u := EntryUpdates(cfg.start + i, cfg.blocks[i], a);
    assert u != [] <==> HasEntry(cfg.blocks[i], a);
    assert RunUpdates(cfg, a, i) + [] == RunUpdates(cfg, a, i);
    if Waiting(cfg, a, i) {
      WaitingTouched(cfg, a, i);
    }
  }

  lemma {:induction false} SequentialReached(cfg: Config, a: Account, i: nat)
    requires i <= |cfg.blocks|
    ensures Reached(cfg, Sequential(cfg, i), a, i)
  {
    hide Reached, EntriesDo, ApplyEntries, EntryUpdates, HasEntry, WithCommitments;
    if i == 0 {
      NothingReached(cfg, a);
    } else {
      SequentialReached(cfg, a, i - 1);
      EntriesApplied(Sequential(cfg, i - 1), cfg.start + (i - 1), cfg.blocks[i - 1], !Recording(cfg, i - 1), a);
      BlockReached(cfg, Sequential(cfg, i - 1),
                   ApplyEntries(Sequential(cfg, i - 1), cfg.start + (i - 1), cfg.blocks[i - 1], !Recording(cfg, i - 1)), a, i - 1);
    }
  }

  lemma {:induction false} NothingReached(cfg: Config, a: Account)
    ensures Reached(cfg, Sequential(cfg, 0), a, 0)
  {
  }

  // ----- the blocks that are built

  /** In every state of every run, the trie of each block built holds for every account exactly what is expected. */
  lemma {:induction false} BuiltHolds(cfg: Config, run: seq<State>, i: nat, a: Account)
    requires IsRun(cfg, run) && i < |run[|run| - 1].mpt.built|
    ensures i < |cfg.blocks| && ValueAt(run[|run| - 1].mpt.built[i], a) == Expected(cfg, a, i + 1)
  {
    hide Expected;
    PipelineRefinesSequential(cfg, run);
    SequentialReached(cfg, a, i + 1);
  }

  /** A block that records commitments has the commitment, over all updates so far, of every account with an entry in it
      or in one of the blocks since the previous such block; any other block has the balance of the last entry. */
  lemma {:induction false} BlockValues(cfg: Config, run: seq<State>, i: nat, a: Account)
    requires IsRun(cfg, run) && i < |run[|run| - 1].mpt.built|
    ensures i < |cfg.blocks|
    ensures var value, u := ValueAt(run[|run| - 1].mpt.built[i], a), RunUpdates(cfg, a, i + 1);
            HasEntry(cfg.blocks[i], a) || Waiting(cfg, a, i) ==>
              u != [] &&
              if i + 1 == |cfg.blocks| || (i + 1) % 7240 == 0 then value == Some(CommitmentValue(CommitmentAfter(u)))
              else value == Some(RawBalance(u[|u| - 1].balance))
  {
    hide CommitmentAfter, HasEntry, RunUpdates;
    BuiltHolds(cfg, run, i, a);
    if HasEntry(cfg.blocks[i], a) || Waiting(cfg, a, i) {
      if Waiting(cfg, a, i) {
        WaitingTouched(cfg, a, i);
      }
      TouchedUpdates(cfg, a, i + 1);
    }
  }

  /** When no process can take a step any more, the trie has for every account touched in the run the commitment over all
      its updates, those before the run and those of the run, and for any other account what it had. */
  lemma {:induction false} FinalValues(cfg: Config, run: seq<State>, a: Account)
    requires IsRun(cfg, run) && WellShaped(cfg, run[|run| - 1]) && Stuck(cfg, run[|run| - 1])
    ensures var value, u := ValueAt(run[|run| - 1].mpt.trie, a), RunUpdates(cfg, a, |cfg.blocks|);
            if Touched(cfg, a, |cfg.blocks|) then u != [] && value == Some(CommitmentValue(CommitmentAfter(u)))
            else value == ValueAt(cfg.trie, a)
  {
    hide CommitmentAfter, HasEntry, RunUpdates, Stuck;
    NothingLost(cfg, run);
    SequentialReached(cfg, a, |cfg.blocks|);
    if Touched(cfg, a, |cfg.blocks|) {
      TouchedUpdates(cfg, a, |cfg.blocks|);
    }
  }

  /** In every state of every run, the updates of an account are in the queue of the worker that its address gives. */
  lemma {:induction false} QueuedAtShard(cfg: Config, run: seq<State>, w: nat, task: Task)
    requires IsRun(cfg, run) && w < |run[|run| - 1].queues| && task in run[|run| - 1].queues[w] && task.UpdateTask?
    ensures cfg.addressHash(task.account) % cfg.workers == w
  {
    RunHolds(cfg, run);
    assert TaskOwned(cfg, task, w);
  }
}
