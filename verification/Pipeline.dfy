/** The ingestion pipeline as a step system (ingest.go): a producer, commit workers with one queue
    each, a shared channel of results, and the worker that assembles blocks. */
module Pipeline {
  import opened Primitives
  import opened Layers
  import opened SegmentTree
  import opened Accounts
  import opened AccountObjects
  import opened AccountCache

  const BATCH_SIZE := 7240

  /** A balance that the dataset records for an account in a block. */
  datatype Entry = Entry(account: Account, balance: nat)

  /** The blocks to process, the first one being number `start`; the workers, which share the
      accounts by the hash of their addresses; and the trie and the updates of each account before
      the first block. */
  datatype Config = Config(start: nat, workers: nat, blocks: seq<seq<Entry>>, addressHash: Account -> nat, trie: Trie, log: Logs)

  predicate ValidConfig(cfg: Config) {
    && 0 < cfg.workers < MAX_UINT64
    && forall i :: 0 <= i < |cfg.blocks| ==> |cfg.blocks[i]| < MAX_UINT64
  }

  function Shard(cfg: Config, a: Account): (w: nat)
    requires 0 < cfg.workers
    ensures w < cfg.workers
  {
    cfg.addressHash(a) % cfg.workers
  }

  function Number(cfg: Config, i: nat): nat {
    cfg.start + i
  }

  /** The last block, and every 7240th one, records commitments instead of balances. */
  predicate MustFlush(cfg: Config, i: nat) {
    i + 1 == |cfg.blocks| || (i + 1) % BATCH_SIZE == 0
  }

  // ----- what the state trie holds

  datatype Value = RawBalance(balance: nat) | CommitmentValue(hash: Hash)

  type Trie = map<Account, Value>

  type Logs = map<Account, seq<BalanceUpdate>>

  function LogAt(log: Logs, a: Account): seq<BalanceUpdate> {
    if a in log then log[a] else []
  }

  function ValueAt(t: Trie, a: Account): Option<Value> {
    if a in t then Some(t[a]) else None
  }

  function WithCommitments(t: Trie, hashes: map<Account, Hash>): Trie {
    t + map a | a in hashes :: CommitmentValue(hashes[a])
  }

  // ----- sequential application, the reference

  /** The trie, the updates of each account, and the latest commitment of every account touched
      since the last block that recorded commitments. */
  datatype Ledger = Ledger(trie: Trie, log: Logs, hashes: map<Account, Hash>)

  function ApplyEntry(l: Ledger, n: nat, e: Entry, raw: bool): Ledger {
    var u := LogAt(l.log, e.account) + [BalanceUpdate(n, e.balance)];
    Ledger(if raw then l.trie[e.account := RawBalance(e.balance)] else l.trie,
           l.log[e.account := u], l.hashes[e.account := CommitmentAfter(u)])
  }

  function ApplyEntries(l: Ledger, n: nat, entries: seq<Entry>, raw: bool): Ledger {
    if entries == [] then l
    else ApplyEntry(ApplyEntries(l, n, entries[..|entries| - 1], raw), n, entries[|entries| - 1], raw)
  }

  function ApplyBlock(cfg: Config, l: Ledger, i: nat): Ledger
    requires i < |cfg.blocks|
  {
    var l1 := ApplyEntries(l, Number(cfg, i), cfg.blocks[i], !MustFlush(cfg, i));
    if MustFlush(cfg, i) then Ledger(WithCommitments(l1.trie, l1.hashes), l1.log, map[]) else l1
  }

  /** The ledger after the first i blocks, applied one after the other. */
  function Sequential(cfg: Config, i: nat): Ledger
    requires i <= |cfg.blocks|
  {
    if i == 0 then Ledger(cfg.trie, cfg.log, map[]) else ApplyBlock(cfg, Sequential(cfg, i - 1), i - 1)
  }

  // ----- the producer

  datatype Task = UpdateTask(block: nat, account: Account, balance: nat, forwardRaw: bool) | FlushTask(block: nat)

  datatype BlockInfo = BlockInfo(block: nat, updateCount: nat)

  /** What the producer does next: append a task to a worker's queue, or announce a block. */
  datatype Emission = Enqueue(worker: nat, task: Task) | Announce(info: BlockInfo)

  function EntryEmissions(cfg: Config, n: nat, entries: seq<Entry>, raw: bool): seq<Emission>
    requires 0 < cfg.workers
  {
    if entries == [] then []
    else
      var e := entries[|entries| - 1];
      EntryEmissions(cfg, n, entries[..|entries| - 1], raw) +
      [Enqueue(Shard(cfg, e.account), UpdateTask(n, e.account, e.balance, raw))]
  }

  function FlushEmissions(n: nat, workers: nat): seq<Emission> {
    if workers == 0 then [] else FlushEmissions(n, workers - 1) + [Enqueue(workers - 1, FlushTask(n))]
  }

  /** The number of messages that the assembler must receive for block i. */
  function Total(cfg: Config, i: nat): nat
    requires i < |cfg.blocks|
  {
    if MustFlush(cfg, i) then cfg.workers else |cfg.blocks[i]|
  }

  /** All that the producer emits for block i (produceBlocks). */
  function BlockProgram(cfg: Config, i: nat): seq<Emission>
    requires 0 < cfg.workers && i < |cfg.blocks|
  {
    EntryEmissions(cfg, Number(cfg, i), cfg.blocks[i], !MustFlush(cfg, i)) +
    (if MustFlush(cfg, i) then FlushEmissions(Number(cfg, i), cfg.workers) else []) +
    [Announce(BlockInfo(Number(cfg, i), Total(cfg, i)))]
  }

  // ----- a commit worker

  datatype Message = RawMessage(block: nat, account: Account, balance: nat) | FlushMessage(block: nat, commitments: map<Account, Hash>)

  /** A worker's accounts, with their updates so far, and the latest commitment of every account
      touched since it last sent commitments. */
  datatype Worker = Worker(log: Logs, hashes: map<Account, Hash>)

  function Handle(w: Worker, task: Task): Worker {
    match task
    case UpdateTask(n, a, balance, _) =>
      var u := LogAt(w.log, a) + [BalanceUpdate(n, balance)];
      Worker(w.log[a := u], w.hashes[a := CommitmentAfter(u)])
    case FlushTask(_) => Worker(w.log, map[])
  }

  function Sent(w: Worker, task: Task): seq<Message> {
    match task
    case UpdateTask(n, a, balance, raw) => if raw then [RawMessage(n, a, balance)] else []
    case FlushTask(n) => [FlushMessage(n, w.hashes)]
  }

  // ----- the assembler of blocks

  /** Messages buffered by block, the numbers of messages expected and received, the announced
      blocks, the block to build next, the trie, and the tries of the blocks built so far. */
  datatype Assembler = Assembler(buffered: map<nat, seq<Message>>, pending: map<nat, nat>, fulfilled: map<nat, nat>,
                                 announced: map<nat, BlockInfo>, current: nat, trie: Trie, built: seq<Trie>)

  function GetOr(m: map<nat, nat>, k: nat, otherwise: nat): nat {
    if k in m then m[k] else otherwise
  }

  function BufferAt(m: Assembler, n: nat): seq<Message> {
    if n in m.buffered then m.buffered[n] else []
  }

  function ReceiveInfo(m: Assembler, info: BlockInfo): Assembler {
    m.(pending := m.pending[info.block := info.updateCount],
    announced := m.announced[info.block := info],
    buffered := m.buffered[info.block := BufferAt(m, info.block)])
  }

  function ReceiveMessage(m: Assembler, msg: Message): Assembler {
    m.(buffered := m.buffered[msg.block := BufferAt(m, msg.block) + [msg]],
    fulfilled := m.fulfilled[msg.block := GetOr(m.fulfilled, msg.block, 0) + 1])
  }

  function ApplyMessage(t: Trie, msg: Message): Trie {
    match msg
    case RawMessage(_, a, balance) => t[a := RawBalance(balance)]
    case FlushMessage(_, commitments) => WithCommitments(t, commitments)
  }

  function ApplyMessages(t: Trie, msgs: seq<Message>): Trie {
    if msgs == [] then t else ApplyMessage(ApplyMessages(t, msgs[..|msgs| - 1]), msgs[|msgs| - 1])
  }

  /** The next block can be built when all messages expected for it have arrived; until it is
      announced, the number expected is the largest integer. */
  predicate CanCreate(m: Assembler) {
    m.current in m.buffered && GetOr(m.fulfilled, m.current, 0) >= GetOr(m.pending, m.current, MAX_UINT64)
  }

  function CreateBlock(m: Assembler): Assembler
    requires CanCreate(m)
  {
    var t := ApplyMessages(m.trie, m.buffered[m.current]);
    Assembler(m.buffered - {m.current}, m.pending - {m.current}, m.fulfilled - {m.current}, m.announced - {m.current},
              m.current + 1, t, m.built + [t])
  }

  function CreateBlocks(m: Assembler): Assembler
    decreases |m.buffered|
  {
    if CanCreate(m) then
      RemoveOne(m.buffered, m.current);
      CreateBlocks(CreateBlock(m))
    else m
  }

  lemma {:induction false} RemoveOne<K, V>(m: map<K, V>, k: K)
    requires k in m
    ensures |m - {k}| < |m|
  {
    assert (m - {k}).Keys == m.Keys - {k};
    assert |m.Keys - {k}| < |m.Keys|;
  }

  // ----- the whole system

  /** Processes and channels, together with the tasks each worker has handled, the messages the
      assembler has received and the number of announcements it has received so far. */
  datatype State = State(next: nat, todo: seq<Emission>, queues: seq<seq<Task>>, workers: seq<Worker>, channel: seq<Message>,
                         infos: seq<BlockInfo>, mpt: Assembler, handled: seq<seq<Task>>, received: seq<Message>, told: nat)

  ghost predicate WellShaped(cfg: Config, s: State) {
    |s.queues| == |s.workers| == |s.handled| == cfg.workers && s.next <= |cfg.blocks|
  }

  function Init(cfg: Config): State {
    State(0, [], seq(cfg.workers, _ => []), seq(cfg.workers, _ => Worker(cfg.log, map[])), [], [],
          Assembler(map[], map[], map[], map[], cfg.start, cfg.trie, []), seq(cfg.workers, _ => []), [], 0)
  }

  /** The producer reads the next block. */
  function LoadBlock(cfg: Config, s: State): State
    requires 0 < cfg.workers && s.next < |cfg.blocks|
  {
    s.(todo := BlockProgram(cfg, s.next), next := s.next + 1)
  }

  /** The producer appends a task to a queue or announces a block. */
  function Emit(s: State): State
    requires s.todo != [] && (s.todo[0].Enqueue? ==> s.todo[0].worker < |s.queues|)
  {
    match s.todo[0]
    case Enqueue(w, task) => s.(todo := s.todo[1..], queues := s.queues[w := s.queues[w] + [task]])
    case Announce(info) => s.(todo := s.todo[1..], infos := s.infos + [info])
  }

  /** Worker w handles the first task in its queue. */
  function Work(s: State, w: nat): State
    requires w < |s.queues| == |s.workers| == |s.handled| && s.queues[w] != []
  {
    var task := s.queues[w][0];
    s.(queues := s.queues[w := s.queues[w][1..]], workers := s.workers[w := Handle(s.workers[w], task)],
    channel := s.channel + Sent(s.workers[w], task), handled := s.handled[w := s.handled[w] + [task]])
  }

  /** The assembler takes an announcement, unless too many announced blocks are waiting. */
  function TakeInfo(s: State): State
    requires s.infos != []
  {
    s.(infos := s.infos[1..], told := s.told + 1, mpt := CreateBlocks(ReceiveInfo(s.mpt, s.infos[0])))
  }

  /** The assembler takes a message from the shared channel. */
  function TakeMessage(s: State): State
    requires s.channel != []
  {
    s.(channel := s.channel[1..], received := s.received + [s.channel[0]],
    mpt := CreateBlocks(ReceiveMessage(s.mpt, s.channel[0])))
  }

  const MAX_HANG_LEN := 1

  /** The places of the channel of announcements; queues and the shared channel are unbounded. */
  const INFO_CAPACITY := 100

  /** The producer has something to emit and is not held up by a full channel of announcements. */
  predicate CanEmit(s: State) {
    s.todo != [] && (s.todo[0].Announce? ==> |s.infos| < INFO_CAPACITY)
  }

  /** One step of some process. */
  ghost predicate Next(cfg: Config, s: State, s': State)
    requires 0 < cfg.workers && WellShaped(cfg, s)
  {
    || (s.todo == [] && s.next < |cfg.blocks| && s' == LoadBlock(cfg, s))
    || (CanEmit(s) && (s.todo[0].Enqueue? ==> s.todo[0].worker < cfg.workers) && s' == Emit(s))
    || (exists w :: 0 <= w < cfg.workers && s.queues[w] != [] && s' == Work(s, w))
    || (s.infos != [] && |s.mpt.announced| <= MAX_HANG_LEN && s' == TakeInfo(s))
    || (s.channel != [] && s' == TakeMessage(s))
  }

  /** A run: any interleaving of steps of the processes. */
  ghost predicate IsRun(cfg: Config, run: seq<State>) {
    && ValidConfig(cfg) && |run| > 0 && run[0] == Init(cfg)
    && forall i :: 0 <= i < |run| - 1 ==> StepAt(cfg, run, i)
  }

  ghost predicate StepAt(cfg: Config, run: seq<State>, i: nat)
    requires ValidConfig(cfg) && i < |run| - 1
  {
    WellShaped(cfg, run[i]) && Next(cfg, run[i], run[i + 1])
  }
}
