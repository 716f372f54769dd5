/** Every step of the pipeline keeps the invariant. */
module PipelineSteps {
  import opened Primitives
  import opened Layers
  import opened SegmentTree
  import opened Accounts
  import opened AccountObjects
  import opened AccountCache
  import opened Pipeline
  import opened PipelineFlow
  import opened PipelineSafety

  ghost predicate Ready(cfg: Config, s: State) {
    ValidConfig(cfg) && WellShaped(cfg, s)
  }

  // ----- the flow of an account

  lemma {:induction false} FlowLoad(cfg: Config, s: State, a: Account)
    requires Ready(cfg, s) && s.todo == [] && s.next < |cfg.blocks| && AccountFlow(cfg, s, a)
    ensures AccountFlow(cfg, LoadBlock(cfg, s), a)
  {
    var w := Shard(cfg, a);
    var x := TaskEvents(s.handled[w], a) + TaskEvents(s.queues[w], a);
    Unit(x);
  }

  lemma {:induction false} EmitEvents(cfg: Config, es: seq<Emission>, a: Account)
    requires 0 < cfg.workers && es != []
    ensures EmissionEvents(cfg, es, a) == EmissionEvent(cfg, es[0], a) + EmissionEvents(cfg, es[1..], a)
  {
  }

  lemma {:induction false} OneTask(task: Task, a: Account)
    ensures TaskEvents([task], a) == TaskEvent(task, a)
  {
    assert [task][1..] == [];
  }

  lemma {:induction false} FlowEmit(cfg: Config, s: State, a: Account)
    requires Ready(cfg, s) && s.todo != [] && (s.todo[0].Enqueue? ==> s.todo[0].worker < cfg.workers) && AccountFlow(cfg, s, a)
    ensures AccountFlow(cfg, Emit(s), a)
  {
    var w, e := Shard(cfg, a), s.todo[0];
    var done, queued, rest := TaskEvents(s.handled[w], a), TaskEvents(s.queues[w], a), EmissionEvents(cfg, s.todo[1..], a);
    EmitEvents(cfg, s.todo, a);
    if e.Enqueue? && e.worker == w {
      TaskEventsConcat(s.queues[w], [e.task], a);
      OneTask(e.task, a);
      MoveHead(done, queued, TaskEvent(e.task, a), rest);
    } else {
      Unit(rest);
    }
  }

  lemma {:induction false} MoveHead<T>(x: seq<T>, y: seq<T>, e: seq<T>, z: seq<T>)
    ensures x + y + (e + z) == x + (y + e) + z
    ensures x + (e + y) + z == x + e + y + z
  {
  }

  lemma {:induction false} TaskStep(cfg: Config, worker: Worker, task: Task, a: Account, done: seq<Event>)
    requires WorkerHolds(cfg, worker, a, done)
    ensures WorkerHolds(cfg, Handle(worker, task), a, if TaskEvent(task, a) == [] then done else done + TaskEvent(task, a))
  {
    if TaskEvent(task, a) != [] {
      OneMoreEvent(LogAt(cfg.log, a), done, TaskEvent(task, a)[0]);
    }
  }

  /** A worker's messages about its own account are the outputs of the task's event. */
  lemma {:induction false} SentOutputs(cfg: Config, worker: Worker, task: Task, a: Account, done: seq<Event>)
    requires WorkerHolds(cfg, worker, a, done)
    ensures MessageOutputs(Sent(worker, task), a) ==
            if TaskEvent(task, a) == [] then [] else OutputOf(LogAt(cfg.log, a), done, TaskEvent(task, a)[0])
  {
    var sent := Sent(worker, task);
    if sent != [] {
      assert sent[..0] == [];
      Unit(MessageOutput(sent[0], a));
    }
  }

  lemma {:induction false} ForeignOutputs(cfg: Config, worker: Worker, task: Task, w: nat, a: Account)
    requires 0 < cfg.workers && TaskOwned(cfg, task, w) && HashesOwned(cfg, worker, w) && Shard(cfg, a) != w
    ensures MessageOutputs(Sent(worker, task), a) == []
  {
    var sent := Sent(worker, task);
    if sent != [] {
      assert sent[..0] == [];
    }
  }

  lemma {:induction false} FlowWorkOther(cfg: Config, s: State, w: nat, a: Account)
    requires Ready(cfg, s) && w < cfg.workers && s.queues[w] != [] && AccountFlow(cfg, s, a) && Shard(cfg, a) != w
    requires TaskOwned(cfg, s.queues[w][0], w) && HashesOwned(cfg, s.workers[w], w)
    ensures AccountFlow(cfg, Work(s, w), a)
  {
    var sent := Sent(s.workers[w], s.queues[w][0]);
    ForeignOutputs(cfg, s.workers[w], s.queues[w][0], w, a);
    MessageOutputsConcat(s.received + s.channel, sent, a);
    Associate(s.received, s.channel, sent);
    Unit(MessageOutputs(s.received + s.channel, a));
  }

  lemma {:induction false} QueueHead(q: seq<Task>, a: Account)
    requires q != []
    ensures TaskEvents(q, a) == TaskEvent(q[0], a) + TaskEvents(q[1..], a)
  {
  }

  lemma {:induction false} HandledEvents(handled: seq<Task>, task: Task, a: Account)
    ensures TaskEvents(handled + [task], a) == if TaskEvent(task, a) == [] then TaskEvents(handled, a) else TaskEvents(handled, a) + TaskEvent(task, a)
  {
    TaskEventsConcat(handled, [task], a);
    OneTask(task, a);
    Unit(TaskEvents(handled, a));
  }

  lemma {:induction false} OutputsAfterTask(cfg: Config, a: Account, done: seq<Event>, task: Task)
    ensures Outputs(LogAt(cfg.log, a), [], if TaskEvent(task, a) == [] then done else done + TaskEvent(task, a)) ==
            Outputs(LogAt(cfg.log, a), [], done) +
            if TaskEvent(task, a) == [] then [] else OutputOf(LogAt(cfg.log, a), done, TaskEvent(task, a)[0])
  {
    Unit(Outputs(LogAt(cfg.log, a), [], done));
    if TaskEvent(task, a) != [] {
      OneMoreEvent(LogAt(cfg.log, a), done, TaskEvent(task, a)[0]);
    }
  }

  lemma {:induction false} FlowWorkOwn(cfg: Config, s: State, w: nat, a: Account)
    requires Ready(cfg, s) && w < cfg.workers && s.queues[w] != [] && AccountFlow(cfg, s, a) && Shard(cfg, a) == w
    ensures AccountFlow(cfg, Work(s, w), a)
  {
    var task, done := s.queues[w][0], TaskEvents(s.handled[w], a);
    var sent := Sent(s.workers[w], task);
    QueueHead(s.queues[w], a);
    HandledEvents(s.handled[w], task, a);
    MoveHead(done, TaskEvents(s.queues[w][1..], a), TaskEvent(task, a), EmissionEvents(cfg, s.todo, a));
    Unit(TaskEvents(s.queues[w][1..], a));
    TaskStep(cfg, s.workers[w], task, a, done);
    SentOutputs(cfg, s.workers[w], task, a, done);
    OutputsAfterTask(cfg, a, done, task);
    MessageOutputsConcat(s.received + s.channel, sent, a);
    Associate(s.received, s.channel, sent);
  }

  lemma {:induction false} FlowTake(cfg: Config, s: State, a: Account)
    requires Ready(cfg, s) && s.channel != [] && AccountFlow(cfg, s, a)
    ensures AccountFlow(cfg, TakeMessage(s), a)
  {
    Associate(s.received, [s.channel[0]], s.channel[1..]);
    assert [s.channel[0]] + s.channel[1..] == s.channel;
  }

  // ----- messages under way

  lemma {:induction false} LoadUnderWay(cfg: Config, s: State)
    requires Ready(cfg, s) && s.todo == [] && s.next < |cfg.blocks|
    ensures UnderWay(LoadBlock(cfg, s)) == UnderWay(s) + Copies(Number(cfg, s.next), Total(cfg, s.next))
    ensures Conserved(cfg, s) ==> Conserved(cfg, LoadBlock(cfg, s))
  {
    BlockProgramBlocks(cfg, s.next);
  }

  lemma {:induction false} OneTaskBlock(task: Task)
    ensures TaskBlocks([task]) == TaskBlock(task)
  {
    assert [task][1..] == [];
  }

  lemma {:induction false} MovedToQueue<T>(c: multiset<T>, q: multiset<T>, q': multiset<T>, y: multiset<T>, x: multiset<T>, t: multiset<T>, t': multiset<T>)
    requires q' + y == q + (y + x) && t == x + t'
    ensures c + q' + t' == c + q + t
  {
    forall n ensures (c + q' + t')[n] == (c + q + t)[n] {
      assert (q' + y)[n] == (q + (y + x))[n];
    }
  }

  lemma {:induction false} MovedToChannel<T>(c: multiset<T>, q: multiset<T>, q': multiset<T>, y: multiset<T>, x: multiset<T>, t: multiset<T>)
    requires q' + (x + y) == q + y
    ensures c + x + q' + t == c + q + t
  {
    forall n ensures (c + x + q' + t)[n] == (c + q + t)[n] {
      assert (q' + (x + y))[n] == (q + y)[n];
    }
  }

  lemma {:induction false} EmitUnderWay(cfg: Config, s: State)
    requires Ready(cfg, s) && s.todo != [] && (s.todo[0].Enqueue? ==> s.todo[0].worker < cfg.workers)
    ensures UnderWay(Emit(s)) == UnderWay(s)
  {
    if s.todo[0].Enqueue? {
      var w, task := s.todo[0].worker, s.todo[0].task;
      QueueBlocksUpdate(s.queues, w, s.queues[w] + [task]);
      TaskBlocksConcat(s.queues[w], [task]);
      OneTaskBlock(task);
      MovedToQueue(MessageBlocks(s.channel), QueueBlocks(s.queues), QueueBlocks(s.queues[w := s.queues[w] + [task]]),
                   TaskBlocks(s.queues[w]), TaskBlock(task), EmissionBlocks(s.todo), EmissionBlocks(s.todo[1..]));
    }
  }

  lemma {:induction false} SentBlocks(worker: Worker, task: Task)
    ensures MessageBlocks(Sent(worker, task)) == TaskBlock(task)
  {
    var sent := Sent(worker, task);
    if sent != [] {
      assert sent[..0] == [];
    }
  }

  lemma {:induction false} WorkUnderWay(cfg: Config, s: State, w: nat)
    requires Ready(cfg, s) && w < cfg.workers && s.queues[w] != []
    ensures UnderWay(Work(s, w)) == UnderWay(s)
  {
    var task := s.queues[w][0];
    SentBlocks(s.workers[w], task);
    MessageBlocksConcat(s.channel, Sent(s.workers[w], task));
    QueueBlocksUpdate(s.queues, w, s.queues[w][1..]);
    MovedToChannel(MessageBlocks(s.channel), QueueBlocks(s.queues), QueueBlocks(s.queues[w := s.queues[w][1..]]),
                   TaskBlocks(s.queues[w][1..]), TaskBlock(task), EmissionBlocks(s.todo));
  }

  lemma {:induction false} TakeUnderWay(cfg: Config, s: State)
    requires Ready(cfg, s) && s.channel != []
    ensures UnderWay(s) == UnderWay(TakeMessage(s)) + multiset{s.channel[0].block}
    ensures MessageBlocks(s.received + [s.channel[0]]) == MessageBlocks(s.received) + multiset{s.channel[0].block}
  {
    HeadBlocks(s.channel);
    MessageBlocksConcat(s.received, [s.channel[0]]);
    OneMessageBlock(s.channel[0]);
    AddBoth(MessageBlocks(s.channel[1..]), multiset{s.channel[0].block}, MessageBlocks(s.channel), multiset{}, QueueBlocks(s.queues));
    AddBoth(MessageBlocks(s.channel[1..]) + QueueBlocks(s.queues), multiset{s.channel[0].block},
            MessageBlocks(s.channel) + QueueBlocks(s.queues), multiset{}, EmissionBlocks(s.todo));
  }

  lemma {:induction false} OneMessageBlock(m: Message)
    ensures MessageBlocks([m]) == multiset{m.block}
  {
    assert [m][..0] == [];
  }

  lemma {:induction false} HeadBlocks(msgs: seq<Message>)
    requires msgs != []
    ensures MessageBlocks(msgs[1..]) + multiset{msgs[0].block} == MessageBlocks(msgs) + multiset{}
  {
    assert [msgs[0]] + msgs[1..] == msgs;
    MessageBlocksConcat([msgs[0]], msgs[1..]);
    OneMessageBlock(msgs[0]);
  }

  // ----- ownership

  lemma {:induction false} OwnedLoad(cfg: Config, s: State)
    requires Ready(cfg, s) && s.next < |cfg.blocks| && Owned(cfg, s)
    ensures Owned(cfg, LoadBlock(cfg, s))
  {
    BlockProgramOwned(cfg, s.next);
  }

  lemma {:induction false} OwnedEmit(cfg: Config, s: State)
    requires Ready(cfg, s) && s.todo != [] && Owned(cfg, s)
    ensures EmissionOwned(cfg, s.todo[0]) && Owned(cfg, Emit(s))
  {
    assert s.todo[0] in s.todo;
    assert EmissionOwned(cfg, s.todo[0]);
  }

  lemma {:induction false} OwnedWork(cfg: Config, s: State, w: nat)
    requires Ready(cfg, s) && w < cfg.workers && s.queues[w] != [] && Owned(cfg, s)
    ensures TaskOwned(cfg, s.queues[w][0], w) && HashesOwned(cfg, s.workers[w], w)
    ensures Owned(cfg, Work(s, w))
  {
    var s' := Work(s, w);
    assert s.queues[w][0] in s.queues[w];
    assert HashesOwned(cfg, s.workers[w], w);
    forall v, task | 0 <= v < cfg.workers && task in s'.queues[v] ensures TaskOwned(cfg, task, v) {
      assert task in s.queues[v];
    }
  }

  // ----- announcements

  lemma {:induction false} AnnouncementsConcat(x: seq<Emission>, y: seq<Emission>)
    ensures Announcements(x + y) == Announcements(x) + Announcements(y)
  {
    if x == [] {
      Unit(y);
    } else {
      assert (x + y)[1..] == x[1..] + y;
      AnnouncementsConcat(x[1..], y);
    }
  }

  lemma {:induction false} NoEntryAnnouncements(cfg: Config, n: nat, entries: seq<Entry>, raw: bool)
    requires 0 < cfg.workers
    ensures Announcements(EntryEmissions(cfg, n, entries, raw)) == []
  {
    if entries != [] {
      var before, e := entries[..|entries| - 1], entries[|entries| - 1];
      NoEntryAnnouncements(cfg, n, before, raw);
      AnnouncementsConcat(EntryEmissions(cfg, n, before, raw), [Enqueue(Shard(cfg, e.account), UpdateTask(n, e.account, e.balance, raw))]);
    }
  }

  lemma {:induction false} NoFlushAnnouncements(n: nat, workers: nat)
    ensures Announcements(FlushEmissions(n, workers)) == []
  {
    if workers > 0 {
      NoFlushAnnouncements(n, workers - 1);
      AnnouncementsConcat(FlushEmissions(n, workers - 1), [Enqueue(workers - 1, FlushTask(n))]);
    }
  }

  lemma {:induction false} BlockAnnouncement(cfg: Config, i: nat)
    requires 0 < cfg.workers && i < |cfg.blocks|
    ensures Announcements(BlockProgram(cfg, i)) == [BlockInfo(Number(cfg, i), Total(cfg, i))]
  {
    var n := Number(cfg, i);
    var es := EntryEmissions(cfg, n, cfg.blocks[i], !MustFlush(cfg, i));
    var fs := if MustFlush(cfg, i) then FlushEmissions(n, cfg.workers) else [];
    AnnouncementsConcat(es + fs, [Announce(BlockInfo(n, Total(cfg, i)))]);
    AnnouncementsConcat(es, fs);
    NoEntryAnnouncements(cfg, n, cfg.blocks[i], !MustFlush(cfg, i));
    NoFlushAnnouncements(n, cfg.workers);
  }

  lemma {:induction false} InfosLoad(cfg: Config, s: State)
    requires Ready(cfg, s) && s.todo == [] && s.next < |cfg.blocks| && InfosInOrder(cfg, s)
    ensures InfosInOrder(cfg, LoadBlock(cfg, s))
  {
    BlockAnnouncement(cfg, s.next);
    assert InfoRange(cfg, s.told, s.next + 1) ==
           InfoRange(cfg, s.told, s.next) + [BlockInfo(Number(cfg, s.next), Total(cfg, s.next))];
    Unit(s.infos);
  }

  lemma {:induction false} InfosEmit(cfg: Config, s: State)
    requires s.next <= |cfg.blocks| && s.todo != [] && (s.todo[0].Enqueue? ==> s.todo[0].worker < |s.queues|) && InfosInOrder(cfg, s)
    ensures InfosInOrder(cfg, Emit(s))
  {
    if s.todo[0].Announce? {
      Associate(s.infos, [s.todo[0].info], Announcements(s.todo[1..]));
    } else {
      Unit(Announcements(s.todo[1..]));
    }
  }

  lemma {:induction false} NextInfo(cfg: Config, s: State)
    requires s.next <= |cfg.blocks| && s.infos != [] && InfosInOrder(cfg, s)
    ensures s.told < s.next && s.infos[0] == BlockInfo(Number(cfg, s.told), Total(cfg, s.told))
  {
    assert s.infos[0] == (s.infos + Announcements(s.todo))[0] == InfoRange(cfg, s.told, s.next)[0];
  }

  lemma {:induction false} InfosTake(cfg: Config, s: State)
    requires s.next <= |cfg.blocks| && s.infos != [] && InfosInOrder(cfg, s)
    ensures InfosInOrder(cfg, TakeInfo(s))
  {
    NextInfo(cfg, s);
    var all := InfoRange(cfg, s.told, s.next);
    assert s.infos[1..] + Announcements(s.todo) == all[1..];
    assert all[1..] == InfoRange(cfg, s.told + 1, s.next);
  }
}
