/** Every interleaving of the pipeline commits the blocks in order, each with the state of the
    sequential application. */
module PipelineSafety {
  import opened Primitives
  import opened Layers
  import opened SegmentTree
  import opened Accounts
  import opened AccountObjects
  import opened AccountCache
  import opened Pipeline
  import opened PipelineFlow

  // ----- messages on their way, by block

  function MessageBlocks(msgs: seq<Message>): multiset<nat> {
    if msgs == [] then multiset{} else MessageBlocks(msgs[..|msgs| - 1]) + multiset{msgs[|msgs| - 1].block}
  }

  function TaskBlock(task: Task): multiset<nat> {
    if task.UpdateTask? && !task.forwardRaw then multiset{} else multiset{task.block}
  }

  function TaskBlocks(tasks: seq<Task>): multiset<nat> {
    if tasks == [] then multiset{} else TaskBlock(tasks[0]) + TaskBlocks(tasks[1..])
  }

  function QueueBlocks(queues: seq<seq<Task>>): multiset<nat> {
    if queues == [] then multiset{} else QueueBlocks(queues[..|queues| - 1]) + TaskBlocks(queues[|queues| - 1])
  }

  function EmissionBlock(e: Emission): multiset<nat> {
    if e.Enqueue? then TaskBlock(e.task) else multiset{}
  }

  function EmissionBlocks(es: seq<Emission>): multiset<nat> {
    if es == [] then multiset{} else EmissionBlock(es[0]) + EmissionBlocks(es[1..])
  }

  lemma {:induction false} MessageBlocksConcat(x: seq<Message>, y: seq<Message>)
    ensures MessageBlocks(x + y) == MessageBlocks(x) + MessageBlocks(y)
    decreases |y|
  {
    if y == [] {
      Unit(x);
    } else {
      assert (x + y)[..|x + y| - 1] == x + y[..|y| - 1];
      MessageBlocksConcat(x, y[..|y| - 1]);
    }
  }

  lemma {:induction false} TaskBlocksConcat(x: seq<Task>, y: seq<Task>)
    ensures TaskBlocks(x + y) == TaskBlocks(x) + TaskBlocks(y)
  {
    if x == [] {
      Unit(y);
    } else {
      assert (x + y)[1..] == x[1..] + y;
      TaskBlocksConcat(x[1..], y);
    }
  }

  lemma {:induction false} EmissionBlocksConcat(x: seq<Emission>, y: seq<Emission>)
    ensures EmissionBlocks(x + y) == EmissionBlocks(x) + EmissionBlocks(y)
  {
    if x == [] {
      Unit(y);
    } else {
      assert (x + y)[1..] == x[1..] + y;
      EmissionBlocksConcat(x[1..], y);
    }
  }

  lemma {:induction false} AddBoth<T>(x: multiset<T>, y: multiset<T>, x': multiset<T>, y': multiset<T>, z: multiset<T>)
    requires x + y == x' + y'
    ensures x + z + y == x' + z + y'
  {
    assert x + z + y == (x + y) + z;
    assert x' + z + y' == (x' + y') + z;
  }

  lemma {:induction false} SwapLast<T>(x: multiset<T>, y: multiset<T>, z: multiset<T>)
    ensures x + y + z == x + z + y
  {
  }

  lemma {:induction false} SplitLast(queues: seq<seq<Task>>)
    requires queues != []
    ensures QueueBlocks(queues) == QueueBlocks(queues[..|queues| - 1]) + TaskBlocks(queues[|queues| - 1])
  {
  }

  lemma {:induction false} QueueBlocksUpdate(queues: seq<seq<Task>>, w: nat, q: seq<Task>)
    requires w < |queues|
    ensures QueueBlocks(queues[w := q]) + TaskBlocks(queues[w]) == QueueBlocks(queues) + TaskBlocks(q)
  {
    hide TaskBlocks, QueueBlocks;
    var last := |queues| - 1;
    var updated, before := queues[w := q], queues[..last];
    SplitLast(queues);
    SplitLast(updated);
    if w < last {
      var after := before[w := q];
      assert updated[..last] == after && updated[last] == queues[last] && before[w] == queues[w];
      QueueBlocksUpdate(before, w, q);
      AddBoth(QueueBlocks(after), TaskBlocks(queues[w]), QueueBlocks(before), TaskBlocks(q), TaskBlocks(queues[last]));
    } else {
      assert updated[..last] == before && updated[last] == q;
      SwapLast(QueueBlocks(before), TaskBlocks(q), TaskBlocks(queues[last]));
    }
  }

  /** The blocks of all messages that the first i blocks give rise to. */
  function ProgramBlocks(cfg: Config, i: nat): multiset<nat>
    requires 0 < cfg.workers && i <= |cfg.blocks|
  {
    if i == 0 then multiset{} else ProgramBlocks(cfg, i - 1) + EmissionBlocks(BlockProgram(cfg, i - 1))
  }

  function Copies(n: nat, count: nat): multiset<nat> {
    if count == 0 then multiset{} else Copies(n, count - 1) + multiset{n}
  }

  lemma {:induction false} CopiesCount(n: nat, count: nat, x: nat)
    ensures Copies(n, count)[x] == if x == n then count else 0
  {
    if count > 0 {
      CopiesCount(n, count - 1, x);
    }
  }

  lemma {:induction false} OneEmissionBlock(e: Emission)
    ensures EmissionBlocks([e]) == EmissionBlock(e)
  {
    assert [e][1..] == [];
  }

  lemma {:induction false} EntryBlocks(cfg: Config, n: nat, entries: seq<Entry>, raw: bool)
    requires 0 < cfg.workers
    ensures EmissionBlocks(EntryEmissions(cfg, n, entries, raw)) == if raw then Copies(n, |entries|) else multiset{}
  {
    if entries != [] {
      var before, e := entries[..|entries| - 1], entries[|entries| - 1];
      EntryBlocks(cfg, n, before, raw);
      var last := Enqueue(Shard(cfg, e.account), UpdateTask(n, e.account, e.balance, raw));
      EmissionBlocksConcat(EntryEmissions(cfg, n, before, raw), [last]);
      OneEmissionBlock(last);
    }
  }

  lemma {:induction false} FlushBlocks(n: nat, workers: nat)
    ensures EmissionBlocks(FlushEmissions(n, workers)) == Copies(n, workers)
  {
    if workers > 0 {
      FlushBlocks(n, workers - 1);
      EmissionBlocksConcat(FlushEmissions(n, workers - 1), [Enqueue(workers - 1, FlushTask(n))]);
      OneEmissionBlock(Enqueue(workers - 1, FlushTask(n)));
    }
  }

  /** Block i gives rise to exactly as many messages as its announcement says. */
  lemma {:induction false} BlockProgramBlocks(cfg: Config, i: nat)
    requires 0 < cfg.workers && i < |cfg.blocks|
    ensures EmissionBlocks(BlockProgram(cfg, i)) == Copies(Number(cfg, i), Total(cfg, i))
  {
    var n := Number(cfg, i);
    var es := EntryEmissions(cfg, n, cfg.blocks[i], !MustFlush(cfg, i));
    var fs := if MustFlush(cfg, i) then FlushEmissions(n, cfg.workers) else [];
    var info := Announce(BlockInfo(n, Total(cfg, i)));
    EmissionBlocksConcat(es + fs, [info]);
    EmissionBlocksConcat(es, fs);
    OneEmissionBlock(info);
    EntryBlocks(cfg, n, cfg.blocks[i], !MustFlush(cfg, i));
    FlushBlocks(n, cfg.workers);
  }

  lemma {:induction false} ProgramStep(cfg: Config, i: nat, n: nat)
    requires 0 < cfg.workers && i < |cfg.blocks|
    ensures ProgramBlocks(cfg, i + 1)[n] == ProgramBlocks(cfg, i)[n] + if n == Number(cfg, i) then Total(cfg, i) else 0
  {
    BlockProgramBlocks(cfg, i);
    CopiesCount(Number(cfg, i), Total(cfg, i), n);
  }

  lemma {:induction false} ProgramCount(cfg: Config, i: nat, n: nat)
    requires 0 < cfg.workers && i <= |cfg.blocks|
    ensures ProgramBlocks(cfg, i)[n] == if cfg.start <= n < cfg.start + i then Total(cfg, n - cfg.start) else 0
  {
    if i > 0 {
      var before := i - 1;
      ProgramCount(cfg, before, n);
      ProgramStep(cfg, before, n);
    }
  }

  /** The blocks of messages that have not reached the assembler yet. */
  function UnderWay(s: State): multiset<nat> {
    MessageBlocks(s.channel) + QueueBlocks(s.queues) + EmissionBlocks(s.todo)
  }

  /** No message is lost or duplicated. */
  ghost predicate Conserved(cfg: Config, s: State)
    requires 0 < cfg.workers && WellShaped(cfg, s)
  {
    MessageBlocks(s.received) + UnderWay(s) == ProgramBlocks(cfg, s.next)
  }

  // ----- accounts belong to workers

  ghost predicate TaskOwned(cfg: Config, task: Task, w: nat)
    requires 0 < cfg.workers
  {
    task.UpdateTask? ==> Shard(cfg, task.account) == w
  }

  ghost predicate EmissionOwned(cfg: Config, e: Emission)
    requires 0 < cfg.workers
  {
    e.Enqueue? ==> e.worker < cfg.workers && TaskOwned(cfg, e.task, e.worker)
  }

  ghost predicate HashesOwned(cfg: Config, worker: Worker, w: nat)
    requires 0 < cfg.workers
  {
    forall a :: a in worker.hashes ==> Shard(cfg, a) == w
  }

  /** Every account's updates and commitments are handled by its own worker. */
  ghost predicate Owned(cfg: Config, s: State)
    requires 0 < cfg.workers && WellShaped(cfg, s)
  {
    && (forall e :: e in s.todo ==> EmissionOwned(cfg, e))
    && (forall w, task :: 0 <= w < cfg.workers && task in s.queues[w] ==> TaskOwned(cfg, task, w))
    && (forall w :: 0 <= w < cfg.workers ==> HashesOwned(cfg, s.workers[w], w))
  }

  lemma {:induction false} EntriesOwned(cfg: Config, n: nat, entries: seq<Entry>, raw: bool)
    requires 0 < cfg.workers
    ensures forall e :: e in EntryEmissions(cfg, n, entries, raw) ==> EmissionOwned(cfg, e)
  {
    if entries != [] {
      EntriesOwned(cfg, n, entries[..|entries| - 1], raw);
    }
  }

  lemma {:induction false} FlushesOwned(cfg: Config, n: nat, workers: nat)
    requires 0 < cfg.workers && workers <= cfg.workers
    ensures forall e :: e in FlushEmissions(n, workers) ==> EmissionOwned(cfg, e)
  {
    if workers > 0 {
      FlushesOwned(cfg, n, workers - 1);
    }
  }

  lemma {:induction false} BlockProgramOwned(cfg: Config, i: nat)
    requires 0 < cfg.workers && i < |cfg.blocks|
    ensures forall e :: e in BlockProgram(cfg, i) ==> EmissionOwned(cfg, e)
  {
    EntriesOwned(cfg, Number(cfg, i), cfg.blocks[i], !MustFlush(cfg, i));
    FlushesOwned(cfg, Number(cfg, i), cfg.workers);
  }

  // ----- the flow of one account

  /** The account's events, handled, queued and still with the producer, are those of the blocks
      read so far, in order; its worker's state is that of the events handled; and the messages sent
      about it are the outputs of these events, in order. */
  ghost predicate AccountFlow(cfg: Config, s: State, a: Account)
    requires 0 < cfg.workers && WellShaped(cfg, s)
  {
    var w := Shard(cfg, a);
    var done := TaskEvents(s.handled[w], a);
    && done + TaskEvents(s.queues[w], a) + EmissionEvents(cfg, s.todo, a) == EventsBefore(cfg, s.next, a)
    && WorkerHolds(cfg, s.workers[w], a, done)
    && MessageOutputs(s.received + s.channel, a) == Outputs(LogAt(cfg.log, a), [], done)
  }

  ghost predicate WorkerHolds(cfg: Config, worker: Worker, a: Account, done: seq<Event>) {
    && LogAt(worker.log, a) == LogAfter(LogAt(cfg.log, a), done)
    && (if a in worker.hashes then Some(worker.hashes[a]) else None) == HashAfter(LogAt(cfg.log, a), done)
  }

  // ----- announcements

  function InfoRange(cfg: Config, i: nat, j: nat): seq<BlockInfo>
    requires i <= j <= |cfg.blocks|
  {
    seq(j - i, k requires 0 <= k < j - i => BlockInfo(Number(cfg, i + k), Total(cfg, i + k)))
  }

  function Announcements(es: seq<Emission>): seq<BlockInfo> {
    if es == [] then [] else (if es[0].Announce? then [es[0].info] else []) + Announcements(es[1..])
  }

  /** The announcements not yet received are those of the next blocks, in order. */
  ghost predicate InfosInOrder(cfg: Config, s: State)
    requires s.next <= |cfg.blocks|
  {
    s.told <= s.next && s.infos + Announcements(s.todo) == InfoRange(cfg, s.told, s.next)
  }

  // ----- the assembler

  ghost predicate BufferOk(m: Assembler, received: seq<Message>, n: nat) {
    && BufferAt(m, n) == Select(received, n)
    && GetOr(m.fulfilled, n, 0) == MessageBlocks(received)[n]
    && (n in m.buffered <==> n in m.pending || Select(received, n) != [])
  }

  /** The first blocks have been built, each with the sequential state. */
  ghost predicate TriesOk(cfg: Config, m: Assembler) {
    && |m.built| <= |cfg.blocks| && m.current == cfg.start + |m.built|
    && m.trie == Sequential(cfg, |m.built|).trie
    && forall i :: 0 <= i < |m.built| ==> m.built[i] == Sequential(cfg, i + 1).trie
  }

  /** What is expected for the announced blocks that are not built yet; these are the ones waiting. */
  ghost predicate PendingOk(cfg: Config, m: Assembler, told: nat)
    requires told <= |cfg.blocks|
  {
    && m.announced.Keys == m.pending.Keys
    && (forall n: nat :: n in m.pending <==> m.current <= n < cfg.start + told)
    && (forall n: nat :: n in m.pending && cfg.start <= n < cfg.start + told ==> m.pending[n] == Total(cfg, n - cfg.start))
  }

  ghost predicate BuffersOk(m: Assembler, received: seq<Message>) {
    forall n: nat :: m.current <= n ==> BufferOk(m, received, n)
  }

  /** Nothing is kept or under way for a block that is built. */
  ghost predicate ClosedOk(m: Assembler, rest: multiset<nat>) {
    forall n: nat :: n < m.current ==> n !in m.buffered && rest[n] == 0
  }

  ghost predicate AssemblerOk(cfg: Config, m: Assembler, received: seq<Message>, told: nat, rest: multiset<nat>) {
    && |m.built| <= told <= |cfg.blocks|
    && TriesOk(cfg, m) && PendingOk(cfg, m, told) && BuffersOk(m, received) && ClosedOk(m, rest)
  }

  /** A block is announced after all its tasks. */
  ghost predicate AnnouncesLast(es: seq<Emission>) {
    forall i :: 0 <= i < |es| - 1 ==> es[i].Enqueue?
  }

  ghost predicate Inv(cfg: Config, s: State) {
    && ValidConfig(cfg) && WellShaped(cfg, s) && Owned(cfg, s)
    && (forall a: Account :: AccountFlow(cfg, s, a))
    && Conserved(cfg, s)
    && InfosInOrder(cfg, s) && AnnouncesLast(s.todo)
    && AssemblerOk(cfg, s.mpt, s.received, s.told, UnderWay(s))
    && !CanCreate(s.mpt)
  }
}
