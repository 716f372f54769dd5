/** The assembler builds each block with the state of the sequential application, in every run. */
module PipelineRuns {
  import opened Primitives
  import opened Layers
  import opened SegmentTree
  import opened Accounts
  import opened AccountObjects
  import opened AccountCache
  import opened Pipeline
  import opened PipelineFlow
  import opened PipelineSafety
  import opened PipelineSteps

  // ----- what the messages of a finished block say

  lemma {:induction false} NoTaskSends(tasks: seq<Task>, a: Account, n: nat)
    requires TaskBlocks(tasks)[n] == 0
    ensures forall e :: e in TaskEvents(tasks, a) ==> !Sends(e, n)
  {
    if tasks != [] {
      NoTaskSends(tasks[1..], a, n);
      assert TaskBlock(tasks[0])[n] == 0;
    }
  }

  lemma {:induction false} NoEmissionSends(cfg: Config, es: seq<Emission>, a: Account, n: nat)
    requires 0 < cfg.workers && EmissionBlocks(es)[n] == 0
    ensures forall e :: e in EmissionEvents(cfg, es, a) ==> !Sends(e, n)
  {
    if es != [] {
      NoEmissionSends(cfg, es[1..], a, n);
      assert EmissionBlock(es[0])[n] == 0;
    }
  }

  lemma {:induction false} QueueMember(queues: seq<seq<Task>>, w: nat, n: nat)
    requires w < |queues| && QueueBlocks(queues)[n] == 0
    ensures TaskBlocks(queues[w])[n] == 0
  {
    if w < |queues| - 1 {
      QueueMember(queues[..|queues| - 1], w, n);
    }
  }

  lemma {:induction false} NoMessageOutputs(msgs: seq<Message>, a: Account, n: nat)
    requires MessageBlocks(msgs)[n] == 0
    ensures AtBlock(MessageOutputs(msgs, a), n) == []
  {
    if msgs != [] {
      var before, last := msgs[..|msgs| - 1], msgs[|msgs| - 1];
      NoMessageOutputs(before, a, n);
      AtBlockConcat(MessageOutputs(before, a), MessageOutput(last, a), n);
      OneOutput(last, n, a);
      assert last.block != n;
    }
  }

  /** When nothing for block i is under way, the messages received say of every account exactly what
      the sequential application of the block does to it. */
  lemma {:induction false} FlowDelivers(cfg: Config, s: State, i: nat, a: Account)
    requires Ready(cfg, s) && AccountFlow(cfg, s, a) && i < s.next && UnderWay(s)[Number(cfg, i)] == 0
    ensures AtBlock(MessageOutputs(s.received, a), Number(cfg, i)) == BlockOutputs(cfg, i, a)
  {
    var n, w, log := Number(cfg, i), Shard(cfg, a), LogAt(cfg.log, a);
    var done := TaskEvents(s.handled[w], a);
    var rest := TaskEvents(s.queues[w], a) + EmissionEvents(cfg, s.todo, a);
    QueueMember(s.queues, w, n);
    NoTaskSends(s.queues[w], a, n);
    NoEmissionSends(cfg, s.todo, a, n);
    RestOutputs(log, done, rest, n);
    Associate(done, TaskEvents(s.queues[w], a), EmissionEvents(cfg, s.todo, a));
    OutputsAtBlock(cfg, i, s.next, a);
    NoMessageOutputs(s.channel, a, n);
    MessageOutputsConcat(s.received, s.channel, a);
    AtBlockConcat(MessageOutputs(s.received, a), MessageOutputs(s.channel, a), n);
    Unit(AtBlock(MessageOutputs(s.received, a), n));
  }

  lemma {:induction false} RestOutputs(log: seq<BalanceUpdate>, done: seq<Event>, rest: seq<Event>, n: nat)
    requires forall e :: e in rest ==> !Sends(e, n)
    ensures AtBlock(Outputs(log, [], done + rest), n) == AtBlock(Outputs(log, [], done), n)
  {
    OutputsConcat(log, [], done, rest);
    Unit(done);
    AtBlockConcat(Outputs(log, [], done), Outputs(log, done, rest), n);
    NoOutputs(log, done, rest, n);
    Unit(AtBlock(Outputs(log, [], done), n));
  }

  /** For every block with nothing under way, the messages received are the right ones. */
  ghost predicate Delivered(cfg: Config, received: seq<Message>, next: nat, rest: multiset<nat>)
    requires 0 < cfg.workers && next <= |cfg.blocks|
  {
    forall i: nat, a: Account :: i < next && rest[Number(cfg, i)] == 0 ==>
      AtBlock(MessageOutputs(received, a), Number(cfg, i)) == BlockOutputs(cfg, i, a)
  }

  lemma {:induction false} AllDelivered(cfg: Config, s: State)
    requires Ready(cfg, s) && forall a: Account :: AccountFlow(cfg, s, a)
    ensures Delivered(cfg, s.received, s.next, UnderWay(s))
  {
    forall i: nat, a: Account | i < s.next && UnderWay(s)[Number(cfg, i)] == 0
      ensures AtBlock(MessageOutputs(s.received, a), Number(cfg, i)) == BlockOutputs(cfg, i, a)
    {
      FlowDelivers(cfg, s, i, a);
    }
  }

  // ----- building a block

  lemma {:induction false} TrieEqual(t: Trie, t': Trie)
    requires forall a: Account :: ValueAt(t, a) == ValueAt(t', a)
    ensures t == t'
  {
    forall a: Account ensures a in t <==> a in t'
      ensures a in t ==> t[a] == t'[a]
    {
      assert ValueAt(t, a) == ValueAt(t', a);
    }
  }

  /** Applying the buffered messages of block i to the sequential state gives the next one. */
  lemma {:induction false} BlockBuilt(cfg: Config, received: seq<Message>, next: nat, rest: multiset<nat>, i: nat)
    requires 0 < cfg.workers && i < next <= |cfg.blocks| && Delivered(cfg, received, next, rest) && rest[Number(cfg, i)] == 0
    ensures ApplyMessages(Sequential(cfg, i).trie, Select(received, Number(cfg, i))) == Sequential(cfg, i + 1).trie
  {
    var t := Sequential(cfg, i).trie;
    var n := Number(cfg, i);
    forall a: Account ensures ValueAt(ApplyMessages(t, Select(received, n)), a) == ValueAt(Sequential(cfg, i + 1).trie, a) {
      ApplyMessagesValue(t, Select(received, n), a);
      SelectOutputs(received, n, a);
      SequentialStep(cfg, i, a);
    }
    TrieEqual(ApplyMessages(t, Select(received, n)), Sequential(cfg, i + 1).trie);
  }

  ghost predicate Balanced(cfg: Config, received: seq<Message>, rest: multiset<nat>, next: nat)
    requires 0 < cfg.workers && next <= |cfg.blocks|
  {
    MessageBlocks(received) + rest == ProgramBlocks(cfg, next)
  }

  /** A block is built only when all its messages have arrived: until it is announced, the number
      expected is out of reach. */
  lemma {:induction false} CreateMeansComplete(cfg: Config, m: Assembler, received: seq<Message>, told: nat, rest: multiset<nat>, next: nat)
    requires ValidConfig(cfg) && told <= next <= |cfg.blocks| && AssemblerOk(cfg, m, received, told, rest)
    requires Balanced(cfg, received, rest, next) && CanCreate(m)
    ensures |m.built| < told && rest[m.current] == 0 && m.current == Number(cfg, |m.built|)
    ensures m.buffered[m.current] == Select(received, m.current)
  {
    hide Select;
    var n := m.current;
    assert BufferOk(m, received, n);
    Arrivals(cfg, received, rest, next, n);
  }

  lemma {:induction false} Arrivals(cfg: Config, received: seq<Message>, rest: multiset<nat>, next: nat, n: nat)
    requires ValidConfig(cfg) && next <= |cfg.blocks| && Balanced(cfg, received, rest, next)
    ensures MessageBlocks(received)[n] + rest[n] == if cfg.start <= n < cfg.start + next then Total(cfg, n - cfg.start) else 0
    ensures MessageBlocks(received)[n] < MAX_UINT64
  {
    ProgramCount(cfg, next, n);
    assert (MessageBlocks(received) + rest)[n] == ProgramBlocks(cfg, next)[n];
  }

  lemma {:induction false} CreateBlockOk(cfg: Config, m: Assembler, received: seq<Message>, told: nat, rest: multiset<nat>, next: nat)
    requires ValidConfig(cfg) && told <= next <= |cfg.blocks| && AssemblerOk(cfg, m, received, told, rest)
    requires Balanced(cfg, received, rest, next) && Delivered(cfg, received, next, rest) && CanCreate(m)
    ensures AssemblerOk(cfg, CreateBlock(m), received, told, rest)
  {
    CreateMeansComplete(cfg, m, received, told, rest, next);
    BlockBuilt(cfg, received, next, rest, |m.built|);
    CreatedBuffers(m, received);
    CreatedClosed(m, rest);
    CreatedPending(cfg, m, told);
    CreatedTries(cfg, m);
  }

  lemma {:induction false} CreatedTries(cfg: Config, m: Assembler)
    requires TriesOk(cfg, m) && |m.built| < |cfg.blocks| && CanCreate(m)
    requires ApplyMessages(m.trie, m.buffered[m.current]) == Sequential(cfg, |m.built| + 1).trie
    ensures TriesOk(cfg, CreateBlock(m))
  {
  }

  lemma {:induction false} CreatedPending(cfg: Config, m: Assembler, told: nat)
    requires told <= |cfg.blocks| && PendingOk(cfg, m, told) && CanCreate(m)
    ensures PendingOk(cfg, CreateBlock(m), told)
  {
  }

  lemma {:induction false} CreatedBuffers(m: Assembler, received: seq<Message>)
    requires BuffersOk(m, received) && CanCreate(m)
    ensures BuffersOk(CreateBlock(m), received)
  {
    var m' := CreateBlock(m);
    forall n: nat | m'.current <= n ensures BufferOk(m', received, n) {
      assert BufferOk(m, received, n);
    }
  }

  lemma {:induction false} CreatedClosed(m: Assembler, rest: multiset<nat>)
    requires ClosedOk(m, rest) && CanCreate(m) && rest[m.current] == 0
    ensures ClosedOk(CreateBlock(m), rest)
  {
  }

  lemma {:induction false} CreateBlocksOk(cfg: Config, m: Assembler, r: Assembler, received: seq<Message>, told: nat,
                                          rest: multiset<nat>, next: nat)
    requires ValidConfig(cfg) && told <= next <= |cfg.blocks| && AssemblerOk(cfg, m, received, told, rest)
    requires Balanced(cfg, received, rest, next) && Delivered(cfg, received, next, rest) && r == CreateBlocks(m)
    ensures AssemblerOk(cfg, r, received, told, rest) && !CanCreate(r)
    decreases |m.buffered|
  {
    if CanCreate(m) {
      RemoveOne(m.buffered, m.current);
      CreateBlockOk(cfg, m, received, told, rest, next);
      CreateBlocksOk(cfg, CreateBlock(m), r, received, told, rest, next);
    }
  }

  // ----- receiving

  lemma {:induction false} ReceiveInfoOk(cfg: Config, m: Assembler, received: seq<Message>, told: nat, rest: multiset<nat>)
    requires 0 < cfg.workers && told < |cfg.blocks| && AssemblerOk(cfg, m, received, told, rest)
    ensures AssemblerOk(cfg, ReceiveInfo(m, BlockInfo(Number(cfg, told), Total(cfg, told))), received, told + 1, rest)
  {
    var m' := ReceiveInfo(m, BlockInfo(Number(cfg, told), Total(cfg, told)));
    forall n: nat | m'.current <= n ensures BufferOk(m', received, n) {
      assert BufferOk(m, received, n);
    }
  }

  lemma {:induction false} SelectSnoc(msgs: seq<Message>, msg: Message, n: nat)
    ensures Select(msgs + [msg], n) == if msg.block == n then Select(msgs, n) + [msg] else Select(msgs, n)
    ensures MessageBlocks(msgs + [msg]) == MessageBlocks(msgs) + multiset{msg.block}
  {
    assert (msgs + [msg])[..|msgs|] == msgs;
    Unit(Select(msgs, n));
  }

  lemma {:induction false} ReceiveMessageOk(cfg: Config, m: Assembler, received: seq<Message>, told: nat, rest: multiset<nat>, rest': multiset<nat>, msg: Message)
    requires 0 < cfg.workers && told <= |cfg.blocks| && AssemblerOk(cfg, m, received, told, rest)
    requires rest == rest' + multiset{msg.block}
    ensures AssemblerOk(cfg, ReceiveMessage(m, msg), received + [msg], told, rest')
  {
    hide Select, MessageBlocks, Sequential;
    var m' := ReceiveMessage(m, msg);
    assert rest[msg.block] > 0;
    forall n: nat | m'.current <= n ensures BufferOk(m', received + [msg], n) {
      assert BufferOk(m, received, n);
      SelectSnoc(received, msg, n);
    }
    forall n: nat | n < m.current ensures rest'[n] == 0 {
      assert rest[n] == rest'[n] + multiset{msg.block}[n];
    }
  }

  // ----- every step keeps the invariant

  lemma {:induction false} EntriesEnqueued(cfg: Config, n: nat, entries: seq<Entry>, raw: bool)
    requires 0 < cfg.workers
    ensures forall e :: e in EntryEmissions(cfg, n, entries, raw) ==> e.Enqueue?
  {
    if entries != [] {
      EntriesEnqueued(cfg, n, entries[..|entries| - 1], raw);
    }
  }

  lemma {:induction false} FlushesEnqueued(n: nat, workers: nat)
    ensures forall e :: e in FlushEmissions(n, workers) ==> e.Enqueue?
  {
    if workers > 0 {
      FlushesEnqueued(n, workers - 1);
    }
  }

  lemma {:induction false} ProgramAnnouncesLast(cfg: Config, i: nat)
    requires 0 < cfg.workers && i < |cfg.blocks|
    ensures AnnouncesLast(BlockProgram(cfg, i))
  {
    EntriesEnqueued(cfg, Number(cfg, i), cfg.blocks[i], !MustFlush(cfg, i));
    FlushesEnqueued(Number(cfg, i), cfg.workers);
  }

  lemma {:induction false} LoadKeeps(cfg: Config, s: State)
    requires Inv(cfg, s) && s.todo == [] && s.next < |cfg.blocks|
    ensures Inv(cfg, LoadBlock(cfg, s))
  {
    var s' := LoadBlock(cfg, s);
    OwnedLoad(cfg, s);
    LoadUnderWay(cfg, s);
    InfosLoad(cfg, s);
    ProgramAnnouncesLast(cfg, s.next);
    forall a: Account ensures AccountFlow(cfg, s', a) {
      FlowLoad(cfg, s, a);
    }
    forall n: nat | n < s.mpt.current ensures UnderWay(s')[n] == 0 {
      CopiesCount(Number(cfg, s.next), Total(cfg, s.next), n);
    }
  }

  lemma {:induction false} EmitKeeps(cfg: Config, s: State)
    requires Inv(cfg, s) && s.todo != []
    ensures s.todo[0].Enqueue? ==> s.todo[0].worker < cfg.workers
    ensures Inv(cfg, Emit(s))
  {
    OwnedEmit(cfg, s);
    EmitUnderWay(cfg, s);
    InfosEmit(cfg, s);
    forall a: Account ensures AccountFlow(cfg, Emit(s), a) {
      FlowEmit(cfg, s, a);
    }
  }

  lemma {:induction false} WorkKeeps(cfg: Config, s: State, w: nat)
    requires Inv(cfg, s) && w < cfg.workers && s.queues[w] != []
    ensures Inv(cfg, Work(s, w))
  {
    OwnedWork(cfg, s, w);
    WorkUnderWay(cfg, s, w);
    forall a: Account ensures AccountFlow(cfg, Work(s, w), a) {
      if Shard(cfg, a) == w {
        FlowWorkOwn(cfg, s, w, a);
      } else {
        FlowWorkOther(cfg, s, w, a);
      }
    }
  }

  /** The state once an announcement is taken and the assembler is m. */
  function InfoTaken(s: State, m: Assembler): State
    requires s.infos != []
  {
    s.(infos := s.infos[1..], told := s.told + 1, mpt := m)
  }

  /** Announcements do not touch queues, workers and messages. */
  lemma {:induction false} InfoTakenFrame(cfg: Config, s: State, m: Assembler)
    requires Inv(cfg, s) && s.infos != []
    ensures WellShaped(cfg, InfoTaken(s, m)) && Owned(cfg, InfoTaken(s, m)) && Conserved(cfg, InfoTaken(s, m))
    ensures UnderWay(InfoTaken(s, m)) == UnderWay(s)
    ensures forall a: Account :: AccountFlow(cfg, InfoTaken(s, m), a)
  {
    forall a: Account ensures AccountFlow(cfg, InfoTaken(s, m), a) {
      assert AccountFlow(cfg, s, a);
    }
  }

  lemma {:induction false} InfoTakenKeeps(cfg: Config, s: State, m: Assembler)
    requires Inv(cfg, s) && s.infos != [] && InfosInOrder(cfg, InfoTaken(s, m))
    requires AssemblerOk(cfg, m, s.received, s.told + 1, UnderWay(s)) && !CanCreate(m)
    ensures Inv(cfg, InfoTaken(s, m))
  {
    InfoTakenFrame(cfg, s, m);
  }

  lemma {:induction false} TakeInfoAssembles(cfg: Config, s: State)
    requires Inv(cfg, s) && s.infos != []
    ensures AssemblerOk(cfg, TakeInfo(s).mpt, s.received, s.told + 1, UnderWay(s)) && !CanCreate(TakeInfo(s).mpt)
  {
    hide AssemblerOk, ReceiveInfo, UnderWay, Sequential, CanCreate;
    NextInfo(cfg, s);
    AllDelivered(cfg, s);
    ReceiveInfoOk(cfg, s.mpt, s.received, s.told, UnderWay(s));
    CreateBlocksOk(cfg, ReceiveInfo(s.mpt, s.infos[0]), TakeInfo(s).mpt, s.received, s.told + 1, UnderWay(s), s.next);
  }

  lemma {:induction false} TakeInfoKeeps(cfg: Config, s: State)
    requires Inv(cfg, s) && s.infos != []
    ensures Inv(cfg, TakeInfo(s))
  {
    InfosTake(cfg, s);
    TakeInfoAssembles(cfg, s);
    InfoTakenKeeps(cfg, s, TakeInfo(s).mpt);
  }

  lemma {:induction false} TakeMessageKeeps(cfg: Config, s: State)
    requires Inv(cfg, s) && s.channel != []
    ensures Inv(cfg, TakeMessage(s))
  {
    var s' := TakeMessage(s);
    TakeUnderWay(cfg, s);
    forall a: Account ensures AccountFlow(cfg, s', a) {
      FlowTake(cfg, s, a);
    }
    AllDelivered(cfg, s');
    ReceiveMessageOk(cfg, s.mpt, s.received, s.told, UnderWay(s), UnderWay(s'), s.channel[0]);
    CreateBlocksOk(cfg, ReceiveMessage(s.mpt, s.channel[0]), s'.mpt, s'.received, s.told, UnderWay(s'), s.next);
  }

  lemma {:induction false} NextKeeps(cfg: Config, s: State, s': State)
    requires Inv(cfg, s) && Next(cfg, s, s')
    ensures Inv(cfg, s')
  {
    if s.todo == [] && s.next < |cfg.blocks| && s' == LoadBlock(cfg, s) {
      LoadKeeps(cfg, s);
    } else if CanEmit(s) && (s.todo[0].Enqueue? ==> s.todo[0].worker < cfg.workers) && s' == Emit(s) {
      EmitKeeps(cfg, s);
    } else if w :| 0 <= w < cfg.workers && s.queues[w] != [] && s' == Work(s, w) {
      WorkKeeps(cfg, s, w);
    } else if s.infos != [] && |s.mpt.announced| <= MAX_HANG_LEN && s' == TakeInfo(s) {
      TakeInfoKeeps(cfg, s);
    } else {
      TakeMessageKeeps(cfg, s);
    }
  }

  lemma {:induction false} NoQueueBlocks(workers: nat, queues: seq<seq<Task>>)
    requires |queues| == workers && forall w :: 0 <= w < workers ==> queues[w] == []
    ensures QueueBlocks(queues) == multiset{}
  {
    if workers > 0 {
      NoQueueBlocks(workers - 1, queues[..workers - 1]);
    }
  }

  lemma {:induction false} InitHolds(cfg: Config)
    requires ValidConfig(cfg)
    ensures Inv(cfg, Init(cfg))
  {
    var s := Init(cfg);
    NoQueueBlocks(cfg.workers, s.queues);
    forall a: Account ensures AccountFlow(cfg, s, a) {
    }
    forall n: nat ensures BufferOk(s.mpt, s.received, n) {
    }
  }

  lemma {:induction false} RunHolds(cfg: Config, run: seq<State>)
    requires IsRun(cfg, run)
    ensures Inv(cfg, run[|run| - 1])
  {
    hide Inv, Next;
    if |run| == 1 {
      InitHolds(cfg);
    } else {
      var before := run[..|run| - 1];
      forall i | 0 <= i < |before| - 1 ensures StepAt(cfg, before, i) {
        assert StepAt(cfg, run, i);
      }
      RunHolds(cfg, before);
      assert StepAt(cfg, run, |run| - 2);
      NextKeeps(cfg, run[|run| - 2], run[|run| - 1]);
    }
  }

  /** In every state of every run the blocks committed are the first ones, in order and each once,
      and each was committed with the state of the sequential application up to it. */
  lemma {:induction false} PipelineRefinesSequential(cfg: Config, run: seq<State>)
    requires IsRun(cfg, run)
    ensures var m := run[|run| - 1].mpt;
            && |m.built| <= |cfg.blocks| && m.current == Number(cfg, |m.built|)
            && (forall i :: 0 <= i < |m.built| ==> m.built[i] == Sequential(cfg, i + 1).trie)
            && m.trie == Sequential(cfg, |m.built|).trie
  {
    RunHolds(cfg, run);
  }

  /** No process can take a step. */
  ghost predicate Stuck(cfg: Config, s: State)
    requires 0 < cfg.workers && WellShaped(cfg, s)
  {
    forall s' :: !Next(cfg, s, s')
  }

  /** The producer is done or held up by a full channel of announcements, the workers are done, and the assembler
      has no message and no announcement that it may take. */
  predicate Idle(cfg: Config, s: State) {
    && (if s.todo == [] then s.next == |cfg.blocks| else s.todo[0].Announce? && |s.infos| >= INFO_CAPACITY)
    && s.channel == [] && |s.queues| == cfg.workers && (forall w :: 0 <= w < cfg.workers ==> s.queues[w] == [])
    && (s.infos == [] || |s.mpt.announced| > MAX_HANG_LEN)
  }

  lemma {:induction false} StuckIdle(cfg: Config, s: State)
    requires Inv(cfg, s) && Stuck(cfg, s)
    ensures Idle(cfg, s)
  {
    assert s.todo == [] && s.next < |cfg.blocks| ==> Next(cfg, s, LoadBlock(cfg, s));
    if CanEmit(s) {
      EmitKeeps(cfg, s);
      assert Next(cfg, s, Emit(s));
    }
    forall w | 0 <= w < cfg.workers ensures s.queues[w] == [] {
      assert s.queues[w] != [] ==> Next(cfg, s, Work(s, w));
    }
    assert s.infos != [] && |s.mpt.announced| <= MAX_HANG_LEN ==> Next(cfg, s, TakeInfo(s));
    assert s.channel != [] ==> Next(cfg, s, TakeMessage(s));
  }

  /** When no process can take a step, every block has been committed: neither the guard that keeps the assembler
      from taking announcements nor the bound on the channel of announcements can hold a block up for ever. */
  lemma {:induction false} NothingLost(cfg: Config, run: seq<State>)
    requires IsRun(cfg, run) && WellShaped(cfg, run[|run| - 1]) && Stuck(cfg, run[|run| - 1])
    ensures |run[|run| - 1].mpt.built| == |cfg.blocks|
    ensures run[|run| - 1].mpt.trie == Sequential(cfg, |cfg.blocks|).trie
  {
    RunHolds(cfg, run);
    var s := run[|run| - 1];
    StuckIdle(cfg, s);
    IdleUnderWay(cfg, s);
    if |s.mpt.built| < s.told {
      WaitingCreates(cfg, s.mpt, s.received, s.told, s.next);
    }
    IdleTold(cfg, s);
  }

  lemma {:induction false} IdleUnderWay(cfg: Config, s: State)
    requires Inv(cfg, s) && Idle(cfg, s)
    ensures UnderWay(s) == multiset{}
  {
    hide EmissionBlocks, AnnouncesLast, AssemblerOk, AccountFlow, Conserved, InfosInOrder, Owned;
    NoQueueBlocks(cfg.workers, s.queues);
    LastEmission(s.todo);
  }

  lemma {:induction false} LastEmission(es: seq<Emission>)
    requires AnnouncesLast(es) && (es != [] ==> es[0].Announce?)
    ensures EmissionBlocks(es) == multiset{}
  {
  }

  /** With no block waiting, the assembler may take announcements, and so all have been taken: the channel of
      announcements is not full and the producer is not held up. */
  lemma {:induction false} IdleTold(cfg: Config, s: State)
    requires Inv(cfg, s) && Idle(cfg, s) && |s.mpt.built| == s.told
    ensures s.told == |cfg.blocks|
  {
    assert s.mpt.announced.Keys == {};
    assert |s.mpt.announced.Keys| == 0;
    assert s.mpt.announced == map[];
    assert s.infos == [] && s.todo == [];
    assert |InfoRange(cfg, s.told, s.next)| == s.next - s.told;
  }

  /** An announced block all of whose messages have arrived is built. */
  lemma {:induction false} WaitingCreates(cfg: Config, m: Assembler, received: seq<Message>, told: nat, next: nat)
    requires ValidConfig(cfg) && told <= next <= |cfg.blocks| && AssemblerOk(cfg, m, received, told, multiset{})
    requires Balanced(cfg, received, multiset{}, next) && |m.built| < told
    ensures CanCreate(m)
  {
    hide ClosedOk, MessageBlocks, Sequential;
    assert BufferOk(m, received, m.current);
    Arrivals(cfg, received, multiset{}, next, m.current);
  }
}
