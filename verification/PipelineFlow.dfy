/** What happens to one account, and to one block, on the way through the pipeline. */
module PipelineFlow {
  import opened Primitives
  import opened Layers
  import opened SegmentTree
  import opened Accounts
  import opened AccountObjects
  import opened AccountCache
  import opened Pipeline

  // ----- the events of one account

  datatype Event = Updated(block: nat, balance: nat, raw: bool) | Flushed(block: nat)

  function TaskEvent(task: Task, a: Account): seq<Event> {
    match task
    case UpdateTask(n, b, balance, raw) => if a == b then [Updated(n, balance, raw)] else []
    case FlushTask(n) => [Flushed(n)]
  }

  function TaskEvents(tasks: seq<Task>, a: Account): seq<Event> {
    if tasks == [] then [] else TaskEvent(tasks[0], a) + TaskEvents(tasks[1..], a)
  }

  lemma {:induction false} TaskEventsConcat(x: seq<Task>, y: seq<Task>, a: Account)
    ensures TaskEvents(x + y, a) == TaskEvents(x, a) + TaskEvents(y, a)
  {
    if x == [] {
      assert x + y == y;
    } else {
      assert (x + y)[1..] == x[1..] + y;
      TaskEventsConcat(x[1..], y, a);
    }
  }

  /** The events of an account among emissions: those that go to the account's own worker. */
  function EmissionEvent(cfg: Config, e: Emission, a: Account): seq<Event>
    requires 0 < cfg.workers
  {
    if e.Enqueue? && e.worker == Shard(cfg, a) then TaskEvent(e.task, a) else []
  }

  function EmissionEvents(cfg: Config, es: seq<Emission>, a: Account): seq<Event>
    requires 0 < cfg.workers
  {
    if es == [] then [] else EmissionEvent(cfg, es[0], a) + EmissionEvents(cfg, es[1..], a)
  }

  lemma {:induction false} EmissionEventsConcat(cfg: Config, x: seq<Emission>, y: seq<Emission>, a: Account)
    requires 0 < cfg.workers
    ensures EmissionEvents(cfg, x + y, a) == EmissionEvents(cfg, x, a) + EmissionEvents(cfg, y, a)
  {
    if x == [] {
      assert x + y == y;
    } else {
      assert (x + y)[1..] == x[1..] + y;
      EmissionEventsConcat(cfg, x[1..], y, a);
    }
  }

  function BlockEvents(cfg: Config, i: nat, a: Account): seq<Event>
    requires 0 < cfg.workers && i < |cfg.blocks|
  {
    EmissionEvents(cfg, BlockProgram(cfg, i), a)
  }

  /** The events of an account in the first i blocks. */
  function EventsBefore(cfg: Config, i: nat, a: Account): seq<Event>
    requires 0 < cfg.workers && i <= |cfg.blocks|
  {
    if i == 0 then [] else EventsBefore(cfg, i - 1, a) + BlockEvents(cfg, i - 1, a)
  }

  /** The updates of an account after some events. */
  function LogAfter(log: seq<BalanceUpdate>, events: seq<Event>): seq<BalanceUpdate> {
    if events == [] then log
    else
      var before := LogAfter(log, events[..|events| - 1]);
      match events[|events| - 1]
      case Updated(n, balance, _) => before + [BalanceUpdate(n, balance)]
      case Flushed(_) => before
  }

  /** The account's latest commitment, if it was touched since the last flush. */
  function HashAfter(log: seq<BalanceUpdate>, events: seq<Event>): Option<Hash> {
    if events == [] || events[|events| - 1].Flushed? then None
    else Some(CommitmentAfter(NonEmpty(LogAfter(log, events), events[|events| - 1])))
  }

  function NonEmpty(u: seq<BalanceUpdate>, e: Event): Updates {
    if u == [] then [BalanceUpdate(e.block, 0)] else u
  }

  // ----- the values that an account's worker sends

  datatype Output = Output(block: nat, value: Value)

  function OutputOf(log: seq<BalanceUpdate>, before: seq<Event>, e: Event): seq<Output> {
    match e
    case Updated(n, balance, raw) => if raw then [Output(n, RawBalance(balance))] else []
    case Flushed(n) =>
      var h := HashAfter(log, before);
      if h.Some? then [Output(n, CommitmentValue(h.value))] else []
  }

  /** The outputs of the later events y after the earlier events x. */
  function Outputs(log: seq<BalanceUpdate>, x: seq<Event>, y: seq<Event>): seq<Output> {
    if y == [] then []
    else
      var before := y[..|y| - 1];
      Outputs(log, x, before) + OutputOf(log, x + before, y[|y| - 1])
  }

  lemma {:induction false} OutputsSnoc(log: seq<BalanceUpdate>, x: seq<Event>, y: seq<Event>, e: Event)
    ensures Outputs(log, x, y + [e]) == Outputs(log, x, y) + OutputOf(log, x + y, e)
  {
    assert (y + [e])[..|y|] == y;
  }

  lemma {:induction false} Associate<T>(x: seq<T>, y: seq<T>, z: seq<T>)
    ensures x + (y + z) == x + y + z
  {
  }

  lemma {:induction false} Unit<T>(x: seq<T>)
    ensures x + [] == x == [] + x
  {
  }

  lemma {:induction false} LastSplit<T>(z: seq<T>)
    requires z != []
    ensures z == z[..|z| - 1] + [z[|z| - 1]]
  {
  }

  lemma {:induction false} OutputsConcat(log: seq<BalanceUpdate>, x: seq<Event>, y: seq<Event>, z: seq<Event>)
    ensures Outputs(log, x, y + z) == Outputs(log, x, y) + Outputs(log, x + y, z)
    decreases |z|
  {
    if z == [] {
      Unit(y);
      Unit(Outputs(log, x, y));
    } else {
      var before, e := z[..|z| - 1], z[|z| - 1];
      OutputsConcat(log, x, y, before);
      ConcatStep(log, x, y, before, e);
      LastSplit(z);
    }
  }

  lemma {:induction false} ConcatStep(log: seq<BalanceUpdate>, x: seq<Event>, y: seq<Event>, z: seq<Event>, e: Event)
    requires Outputs(log, x, y + z) == Outputs(log, x, y) + Outputs(log, x + y, z)
    ensures Outputs(log, x, y + (z + [e])) == Outputs(log, x, y) + Outputs(log, x + y, z + [e])
  {
    Associate(y, z, [e]);
    OutputsSnoc(log, x, y + z, e);
    OutputsSnoc(log, x + y, z, e);
    Associate(x, y, z);
    Associate(Outputs(log, x, y), Outputs(log, x + y, z), OutputOf(log, x + y + z, e));
  }

  /** Messages to the assembler are sent for raw updates and for flushes. */
  predicate Sends(e: Event, n: nat) {
    e.block == n && (e.Updated? ==> e.raw)
  }

  function AtBlock(outs: seq<Output>, n: nat): seq<Output> {
    if outs == [] then []
    else AtBlock(outs[..|outs| - 1], n) + if outs[|outs| - 1].block == n then [outs[|outs| - 1]] else []
  }

  lemma {:induction false} AtBlockConcat(x: seq<Output>, y: seq<Output>, n: nat)
    ensures AtBlock(x + y, n) == AtBlock(x, n) + AtBlock(y, n)
    decreases |y|
  {
    if y == [] {
      assert x + y == x;
    } else {
      assert (x + y)[..|x + y| - 1] == x + y[..|y| - 1];
      AtBlockConcat(x, y[..|y| - 1], n);
    }
  }

  /** Events that send nothing for block n have no outputs for it. */
  lemma {:induction false} NoOutputs(log: seq<BalanceUpdate>, x: seq<Event>, y: seq<Event>, n: nat)
    requires forall i :: 0 <= i < |y| ==> !Sends(y[i], n)
    ensures AtBlock(Outputs(log, x, y), n) == []
    decreases |y|
  {
    if y != [] {
      var before := y[..|y| - 1];
      assert forall i :: 0 <= i < |before| ==> before[i] == y[i];
      NoOutputs(log, x, before, n);
      var last := OutputOf(log, x + before, y[|y| - 1]);
      AtBlockConcat(Outputs(log, x, before), last, n);
      assert !Sends(y[|y| - 1], n);
    }
  }

  /** Events of block n have outputs for block n only. */
  lemma {:induction false} OwnOutputs(log: seq<BalanceUpdate>, x: seq<Event>, y: seq<Event>, n: nat)
    requires forall i :: 0 <= i < |y| ==> y[i].block == n
    ensures AtBlock(Outputs(log, x, y), n) == Outputs(log, x, y)
    decreases |y|
  {
    if y != [] {
      var before := y[..|y| - 1];
      assert forall i :: 0 <= i < |before| ==> before[i] == y[i];
      OwnOutputs(log, x, before, n);
      var last := OutputOf(log, x + before, y[|y| - 1]);
      AtBlockConcat(Outputs(log, x, before), last, n);
      assert last[..|last|] == last;
    }
  }

  function LastValue(prior: Option<Value>, outs: seq<Output>): Option<Value> {
    if outs == [] then prior else Some(outs[|outs| - 1].value)
  }

  // ----- the messages of one account

  function MessageOutput(m: Message, a: Account): seq<Output> {
    match m
    case RawMessage(n, b, balance) => if a == b then [Output(n, RawBalance(balance))] else []
    case FlushMessage(n, commitments) => if a in commitments then [Output(n, CommitmentValue(commitments[a]))] else []
  }

  function MessageOutputs(msgs: seq<Message>, a: Account): seq<Output> {
    if msgs == [] then [] else MessageOutputs(msgs[..|msgs| - 1], a) + MessageOutput(msgs[|msgs| - 1], a)
  }

  lemma {:induction false} MessageOutputsConcat(x: seq<Message>, y: seq<Message>, a: Account)
    ensures MessageOutputs(x + y, a) == MessageOutputs(x, a) + MessageOutputs(y, a)
    decreases |y|
  {
    if y == [] {
      assert x + y == x;
    } else {
      assert (x + y)[..|x + y| - 1] == x + y[..|y| - 1];
      MessageOutputsConcat(x, y[..|y| - 1], a);
    }
  }

  function Select(msgs: seq<Message>, n: nat): seq<Message> {
    if msgs == [] then []
    else Select(msgs[..|msgs| - 1], n) + if msgs[|msgs| - 1].block == n then [msgs[|msgs| - 1]] else []
  }

  lemma {:induction false} SelectOutputs(msgs: seq<Message>, n: nat, a: Account)
    ensures MessageOutputs(Select(msgs, n), a) == AtBlock(MessageOutputs(msgs, a), n)
  {
    if msgs != [] {
      var before, last := msgs[..|msgs| - 1], msgs[|msgs| - 1];
      SelectOutputs(before, n, a);
      AtBlockConcat(MessageOutputs(before, a), MessageOutput(last, a), n);
      OneOutput(last, n, a);
      MessageOutputsSnoc(Select(before, n), last, a);
      Unit(Select(before, n));
      Unit(AtBlock(MessageOutputs(before, a), n));
    }
  }

  lemma {:induction false} MessageOutputsSnoc(msgs: seq<Message>, m: Message, a: Account)
    ensures MessageOutputs(msgs + [m], a) == MessageOutputs(msgs, a) + MessageOutput(m, a)
  {
    assert (msgs + [m])[..|msgs|] == msgs;
  }

  lemma {:induction false} OneOutput(m: Message, n: nat, a: Account)
    ensures AtBlock(MessageOutput(m, a), n) == if m.block == n then MessageOutput(m, a) else []
  {
    var out := MessageOutput(m, a);
    if out != [] {
      assert out[..0] == [];
      assert out == [out[0]];
    }
  }

  /** Applying messages sets an account to the last value they carry for it. */
  lemma {:induction false} ApplyMessagesValue(t: Trie, msgs: seq<Message>, a: Account)
    ensures ValueAt(ApplyMessages(t, msgs), a) == LastValue(ValueAt(t, a), MessageOutputs(msgs, a))
  {
    if msgs != [] {
      ApplyMessagesValue(t, msgs[..|msgs| - 1], a);
    }
  }

  // ----- the sequential ledger, one account at a time

  /** What the ledger holds for an account after some events. */
  ghost predicate LedgerHolds(cfg: Config, l: Ledger, a: Account, events: seq<Event>) {
    && LogAt(l.log, a) == LogAfter(LogAt(cfg.log, a), events)
    && (if a in l.hashes then Some(l.hashes[a]) else None) == HashAfter(LogAt(cfg.log, a), events)
    && ValueAt(l.trie, a) == LastValue(ValueAt(cfg.trie, a), Outputs(LogAt(cfg.log, a), [], events))
  }

  lemma {:induction false} OneMoreEvent(log: seq<BalanceUpdate>, events: seq<Event>, e: Event)
    ensures Outputs(log, [], events + [e]) == Outputs(log, [], events) + OutputOf(log, events, e)
    ensures LogAfter(log, events + [e]) == if e.Updated? then LogAfter(log, events) + [BalanceUpdate(e.block, e.balance)] else LogAfter(log, events)
    ensures HashAfter(log, events + [e]) == if e.Updated? then Some(CommitmentAfter(LogAfter(log, events) + [BalanceUpdate(e.block, e.balance)])) else None
  {
    assert (events + [e])[..|events|] == events;
    assert [] + events == events;
  }

  lemma {:induction false} EntryStep(cfg: Config, l: Ledger, n: nat, e: Entry, raw: bool, a: Account, events: seq<Event>)
    requires LedgerHolds(cfg, l, a, events)
    ensures LedgerHolds(cfg, ApplyEntry(l, n, e, raw), a, if e.account == a then events + [Updated(n, e.balance, raw)] else events)
  {
    OneMoreEvent(LogAt(cfg.log, a), events, Updated(n, e.balance, raw));
  }

  lemma {:induction false} EntriesStep(cfg: Config, l: Ledger, n: nat, entries: seq<Entry>, raw: bool, a: Account, events: seq<Event>)
    requires 0 < cfg.workers && LedgerHolds(cfg, l, a, events)
    ensures LedgerHolds(cfg, ApplyEntries(l, n, entries, raw), a,
                        events + EmissionEvents(cfg, EntryEmissions(cfg, n, entries, raw), a))
  {
    if entries == [] {
      Unit(events);
    } else {
      var before, e := entries[..|entries| - 1], entries[|entries| - 1];
      EntriesStep(cfg, l, n, before, raw, a, events);
      var es := EntryEmissions(cfg, n, before, raw);
      var last := Enqueue(Shard(cfg, e.account), UpdateTask(n, e.account, e.balance, raw));
      EmissionEventsConcat(cfg, es, [last], a);
      OneEmission(cfg, last, a);
      EntryStep(cfg, ApplyEntries(l, n, before, raw), n, e, raw, a, events + EmissionEvents(cfg, es, a));
      Unit(EmissionEvents(cfg, es, a));
      Associate(events, EmissionEvents(cfg, es, a), EmissionEvent(cfg, last, a));
    }
  }

  lemma {:induction false} OneEmission(cfg: Config, e: Emission, a: Account)
    requires 0 < cfg.workers
    ensures EmissionEvents(cfg, [e], a) == EmissionEvent(cfg, e, a)
  {
    assert [e][1..] == [];
    assert EmissionEvents(cfg, [], a) == [];
  }

  lemma {:induction false} FlushEvents(cfg: Config, n: nat, workers: nat, a: Account)
    requires 0 < cfg.workers
    ensures EmissionEvents(cfg, FlushEmissions(n, workers), a) == if Shard(cfg, a) < workers then [Flushed(n)] else []
  {
    if workers > 0 {
      FlushEvents(cfg, n, workers - 1, a);
      EmissionEventsConcat(cfg, FlushEmissions(n, workers - 1), [Enqueue(workers - 1, FlushTask(n))], a);
      OneEmission(cfg, Enqueue(workers - 1, FlushTask(n)), a);
    }
  }

  /** The events of an account in a block: its entries, then the flush if there is one. */
  lemma {:induction false} BlockEventsAre(cfg: Config, i: nat, a: Account)
    requires 0 < cfg.workers && i < |cfg.blocks|
    ensures BlockEvents(cfg, i, a) ==
            EmissionEvents(cfg, EntryEmissions(cfg, Number(cfg, i), cfg.blocks[i], !MustFlush(cfg, i)), a) +
            if MustFlush(cfg, i) then [Flushed(Number(cfg, i))] else []
  {
    var n := Number(cfg, i);
    var es := EntryEmissions(cfg, n, cfg.blocks[i], !MustFlush(cfg, i));
    var fs := if MustFlush(cfg, i) then FlushEmissions(n, cfg.workers) else [];
    var info := Announce(BlockInfo(n, Total(cfg, i)));
    EmissionEventsConcat(cfg, es + fs, [info], a);
    OneEmission(cfg, info, a);
    EmissionEventsConcat(cfg, es, fs, a);
    FlushEvents(cfg, n, cfg.workers, a);
  }

  lemma {:induction false} FlushStep(cfg: Config, l: Ledger, n: nat, a: Account, events: seq<Event>)
    requires LedgerHolds(cfg, l, a, events)
    ensures LedgerHolds(cfg, Ledger(WithCommitments(l.trie, l.hashes), l.log, map[]), a, events + [Flushed(n)])
  {
    OneMoreEvent(LogAt(cfg.log, a), events, Flushed(n));
  }

  lemma {:induction false} BlockStep(cfg: Config, l: Ledger, i: nat, a: Account, events: seq<Event>)
    requires 0 < cfg.workers && i < |cfg.blocks| && LedgerHolds(cfg, l, a, events)
    ensures LedgerHolds(cfg, ApplyBlock(cfg, l, i), a, events + BlockEvents(cfg, i, a))
  {
    var n, raw := Number(cfg, i), !MustFlush(cfg, i);
    var es := EmissionEvents(cfg, EntryEmissions(cfg, n, cfg.blocks[i], raw), a);
    EntriesStep(cfg, l, n, cfg.blocks[i], raw, a, events);
    BlockEventsAre(cfg, i, a);
    if !raw {
      FlushStep(cfg, ApplyEntries(l, n, cfg.blocks[i], raw), n, a, events + es);
      Associate(events, es, [Flushed(n)]);
    } else {
      Unit(es);
    }
  }

  lemma {:induction false} LedgerStart(cfg: Config, a: Account)
    ensures LedgerHolds(cfg, Ledger(cfg.trie, cfg.log, map[]), a, [])
  {
  }

  lemma {:induction false} LedgerAccount(cfg: Config, i: nat, a: Account, l: Ledger, events: seq<Event>)
    requires 0 < cfg.workers && i <= |cfg.blocks|
    requires l == Sequential(cfg, i) && events == EventsBefore(cfg, i, a)
    ensures LedgerHolds(cfg, l, a, events)
  {
    hide LedgerHolds, ApplyBlock, BlockEvents;
    if i == 0 {
      LedgerStart(cfg, a);
    } else {
      var l', events' := Sequential(cfg, i - 1), EventsBefore(cfg, i - 1, a);
      LedgerAccount(cfg, i - 1, a, l', events');
      BlockStep(cfg, l', i - 1, a, events');
    }
  }

  // ----- the events of one block

  lemma {:induction false} EntryEventBlocks(cfg: Config, n: nat, entries: seq<Entry>, raw: bool, a: Account)
    requires 0 < cfg.workers
    ensures forall e :: e in EmissionEvents(cfg, EntryEmissions(cfg, n, entries, raw), a) ==> e.block == n
  {
    if entries != [] {
      var e := entries[|entries| - 1];
      EntryEventBlocks(cfg, n, entries[..|entries| - 1], raw, a);
      var last := Enqueue(Shard(cfg, e.account), UpdateTask(n, e.account, e.balance, raw));
      EmissionEventsConcat(cfg, EntryEmissions(cfg, n, entries[..|entries| - 1], raw), [last], a);
      OneEmission(cfg, last, a);
    }
  }

  lemma {:induction false} BlockEventBlocks(cfg: Config, i: nat, a: Account)
    requires 0 < cfg.workers && i < |cfg.blocks|
    ensures forall e :: e in BlockEvents(cfg, i, a) ==> e.block == Number(cfg, i)
  {
    BlockEventsAre(cfg, i, a);
    EntryEventBlocks(cfg, Number(cfg, i), cfg.blocks[i], !MustFlush(cfg, i), a);
  }

  lemma {:induction false} EventsBeforeBlocks(cfg: Config, i: nat, a: Account)
    requires 0 < cfg.workers && i <= |cfg.blocks|
    ensures forall e :: e in EventsBefore(cfg, i, a) ==> e.block < Number(cfg, i)
  {
    if i > 0 {
      var before := i - 1;
      EventsBeforeBlocks(cfg, before, a);
      BlockEventBlocks(cfg, before, a);
    }
  }

  /** The outputs of the events of block i, after those of the blocks before it. */
  function BlockOutputs(cfg: Config, i: nat, a: Account): seq<Output>
    requires 0 < cfg.workers && i < |cfg.blocks|
  {
    Outputs(LogAt(cfg.log, a), EventsBefore(cfg, i, a), BlockEvents(cfg, i, a))
  }

  lemma {:induction false} OutputsBefore(cfg: Config, j: nat, a: Account)
    requires 0 < cfg.workers && j < |cfg.blocks|
    ensures Outputs(LogAt(cfg.log, a), [], EventsBefore(cfg, j + 1, a)) ==
            Outputs(LogAt(cfg.log, a), [], EventsBefore(cfg, j, a)) + BlockOutputs(cfg, j, a)
  {
    var before := EventsBefore(cfg, j, a);
    OutputsConcat(LogAt(cfg.log, a), [], before, BlockEvents(cfg, j, a));
    Unit(before);
  }

  /** A block's outputs are for that block only, and those of earlier blocks for earlier ones. */
  lemma {:induction false} BlockOutputsAt(cfg: Config, i: nat, j: nat, a: Account)
    requires 0 < cfg.workers && i <= j < |cfg.blocks|
    ensures AtBlock(BlockOutputs(cfg, j, a), Number(cfg, i)) == if i == j then BlockOutputs(cfg, j, a) else []
    ensures i == j ==> AtBlock(Outputs(LogAt(cfg.log, a), [], EventsBefore(cfg, j, a)), Number(cfg, i)) == []
  {
    var log, before, events := LogAt(cfg.log, a), EventsBefore(cfg, j, a), BlockEvents(cfg, j, a);
    BlockEventBlocks(cfg, j, a);
    if i == j {
      EventsBeforeBlocks(cfg, i, a);
      NoOutputs(log, [], before, Number(cfg, i));
      OwnOutputs(log, before, events, Number(cfg, i));
    } else {
      NoOutputs(log, before, events, Number(cfg, i));
    }
  }

  /** The outputs of an account in the first j blocks. */
  function AccountOutputs(cfg: Config, j: nat, a: Account): seq<Output>
    requires 0 < cfg.workers && j <= |cfg.blocks|
  {
    Outputs(LogAt(cfg.log, a), [], EventsBefore(cfg, j, a))
  }

  lemma {:induction false} AtBlockStep(cfg: Config, i: nat, j: nat, a: Account)
    requires 0 < cfg.workers && i <= j < |cfg.blocks|
    ensures AtBlock(AccountOutputs(cfg, j + 1, a), Number(cfg, i)) ==
            if i == j then BlockOutputs(cfg, j, a) else AtBlock(AccountOutputs(cfg, j, a), Number(cfg, i))
  {
    OutputsBefore(cfg, j, a);
    AtBlockConcat(AccountOutputs(cfg, j, a), BlockOutputs(cfg, j, a), Number(cfg, i));
    BlockOutputsAt(cfg, i, j, a);
    Unit(BlockOutputs(cfg, j, a));
    Unit(AtBlock(AccountOutputs(cfg, j, a), Number(cfg, i)));
  }

  lemma {:induction false} OutputsAtOne(cfg: Config, i: nat, k: nat, j: nat, a: Account)
    requires 0 < cfg.workers && i <= k < |cfg.blocks| && j == k + 1
    ensures AtBlock(AccountOutputs(cfg, j, a), Number(cfg, i)) ==
            if i == k then BlockOutputs(cfg, i, a) else AtBlock(AccountOutputs(cfg, k, a), Number(cfg, i))
  {
    AtBlockStep(cfg, i, k, a);
  }

  /** Among the outputs of the first j blocks, those for block i are the outputs of its events. */
  lemma {:induction false} OutputsAtBlock(cfg: Config, i: nat, j: nat, a: Account)
    requires 0 < cfg.workers && i < j <= |cfg.blocks|
    ensures AtBlock(AccountOutputs(cfg, j, a), Number(cfg, i)) == BlockOutputs(cfg, i, a)
    decreases j
  {
    hide *;
    OutputsAtOne(cfg, i, j - 1, j, a);
    if i < j - 1 {
      OutputsAtBlock(cfg, i, j - 1, a);
    }
  }

  lemma {:induction false} LastValueConcat(prior: Option<Value>, x: seq<Output>, y: seq<Output>)
    ensures LastValue(prior, x + y) == LastValue(LastValue(prior, x), y)
  {
  }

  /** One sequential block sets an account to the last of its outputs for the block. */
  lemma {:induction false} SequentialStep(cfg: Config, i: nat, a: Account)
    requires 0 < cfg.workers && i < |cfg.blocks|
    ensures ValueAt(Sequential(cfg, i + 1).trie, a) == LastValue(ValueAt(Sequential(cfg, i).trie, a), BlockOutputs(cfg, i, a))
  {
    LedgerAccount(cfg, i, a, Sequential(cfg, i), EventsBefore(cfg, i, a));
    LedgerAccount(cfg, i + 1, a, Sequential(cfg, i + 1), EventsBefore(cfg, i + 1, a));
    OutputsBefore(cfg, i, a);
    LastValueConcat(ValueAt(cfg.trie, a), Outputs(LogAt(cfg.log, a), [], EventsBefore(cfg, i, a)), BlockOutputs(cfg, i, a));
  }
}
