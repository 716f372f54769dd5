/** The processes of the pipeline, with the state they update in place (ingest.go, startCommitWorkers,
    runMPTWorker and maybeCreateNewBlock). */
module PipelineWorkers {
  import opened Primitives
  import opened Layers
  import opened SegmentTree
  import opened Accounts
  import opened AccountObjects
  import opened AccountCache
  import opened Pipeline

  /** A commit worker: the cache of its accounts, and the commitments not yet sent. */
  class CommitWorker {
    const cache: Cache
    var commitmentHashes: map<Account, Hash>

    ghost function State(): Worker
      reads this, cache
    {
      Worker(cache.log, commitmentHashes)
    }

    constructor (capacity: nat)
      requires 0 < capacity
      ensures cache.Valid() && State() == Worker(map[], map[]) && fresh(cache) && fresh(cache.sdb)
    {
      cache := new Cache(capacity);
      commitmentHashes := map[];
    }

    /** Handle one task: forward a raw balance, update the account, and on a flush send all
        commitments. */
    method HandleTask(task: Task) returns (sent: seq<Message>)
      requires cache.Valid()
      modifies this`commitmentHashes, cache`entries, cache`log, cache.sdb
      ensures cache.Valid()
      ensures State() == Handle(old(State()), task)
      ensures sent == Sent(old(State()), task)
    {
      sent := [];
      if task.UpdateTask? && task.forwardRaw {
        sent := sent + [RawMessage(task.block, task.account, task.balance)];
      }
      if task.UpdateTask? {
        var h := cache.CreateOrUpdate(task.account, BalanceUpdate(task.block, task.balance));
        commitmentHashes := commitmentHashes[task.account := h];
      }
      if task.FlushTask? {
        sent := sent + [FlushMessage(task.block, commitmentHashes)];
        commitmentHashes := map[];
      }
    }
  }

  lemma {:induction false} FirstsApplied(t: Trie, msgs: seq<Message>, j: nat)
    requires j < |msgs|
    ensures ApplyMessages(t, msgs[..j + 1]) == ApplyMessage(ApplyMessages(t, msgs[..j]), msgs[j])
  {
    assert msgs[..j + 1][..j] == msgs[..j];
  }

  /** The assembler of blocks. */
  class MptWorker {
    var buffered: map<nat, seq<Message>>
    var pendingCount: map<nat, nat>
    var fulfilledCount: map<nat, nat>
    var blockInfoBuffered: map<nat, BlockInfo>
    var currentBlock: nat
    var trie: Trie
    var built: seq<Trie>

    ghost function State(): Assembler
      reads this
    {
      Assembler(buffered, pendingCount, fulfilledCount, blockInfoBuffered, currentBlock, trie, built)
    }

    constructor (start: nat, initial: Trie)
      ensures State() == Assembler(map[], map[], map[], map[], start, initial, [])
    {
      buffered, pendingCount, fulfilledCount, blockInfoBuffered := map[], map[], map[], map[];
      currentBlock, trie, built := start, initial, [];
    }

    /** An announcement, then every block that has become complete. */
    method TakeInfo(info: BlockInfo)
      modifies this
      ensures State() == CreateBlocks(ReceiveInfo(old(State()), info))
    {
      pendingCount := pendingCount[info.block := info.updateCount];
      blockInfoBuffered := blockInfoBuffered[info.block := info];
      if info.block !in buffered {
        buffered := buffered[info.block := []];
      }
      assert State() == ReceiveInfo(old(State()), info);
      CreateNewBlocks();
    }

    /** A message of a commit worker, then every block that has become complete. */
    method TakeMessage(msg: Message)
      modifies this
      ensures State() == CreateBlocks(ReceiveMessage(old(State()), msg))
    {
      if msg.block !in buffered {
        buffered := buffered[msg.block := []];
      }
      buffered := buffered[msg.block := buffered[msg.block] + [msg]];
      var fulfilled := if msg.block in fulfilledCount then fulfilledCount[msg.block] else 0;
      fulfilledCount := fulfilledCount[msg.block := fulfilled + 1];
      assert State() == ReceiveMessage(old(State()), msg);
      CreateNewBlocks();
    }

    method CreateNewBlocks()
      modifies this
      ensures State() == CreateBlocks(old(State()))
    {
      var created := true;
      while created
        invariant CreateBlocks(State()) == CreateBlocks(old(State()))
        invariant !created ==> !CanCreate(State())
        decreases created, |buffered|
      {
        ghost var before := State();
        created := MaybeCreateNewBlock();
        if created {
          RemoveOne(before.buffered, before.current);
        }
      }
    }

    /** Build the current block if everything expected for it has arrived. */
    method MaybeCreateNewBlock() returns (created: bool)
      modifies this
      ensures created <==> CanCreate(old(State()))
      ensures created ==> State() == CreateBlock(old(State()))
      ensures !created ==> State() == old(State())
    {
      if currentBlock !in buffered {
        return false;
      }
      var buffer := buffered[currentBlock];
      var pending := if currentBlock in pendingCount then pendingCount[currentBlock] else MAX_UINT64;
      var fulfilled := if currentBlock in fulfilledCount then fulfilledCount[currentBlock] else 0;
      if fulfilled < pending {
        return false;
      }
      trie := ApplyBuffer(trie, buffer);
      built := built + [trie];
      pendingCount := pendingCount - {currentBlock};
      buffered := buffered - {currentBlock};
      blockInfoBuffered := blockInfoBuffered - {currentBlock};
      fulfilledCount := fulfilledCount - {currentBlock};
      currentBlock := currentBlock + 1;
      created := true;
    }

    /** Set the accounts named by the buffered messages, in the order of arrival. */
    static method ApplyBuffer(initial: Trie, buffer: seq<Message>) returns (t: Trie)
      ensures t == ApplyMessages(initial, buffer)
    {
      t := initial;
      for j := 0 to |buffer|
        invariant t == ApplyMessages(initial, buffer[..j])
      {
        FirstsApplied(initial, buffer, j);
        match buffer[j] {
          case RawMessage(_, a, balance) =>
            t := t[a := RawBalance(balance)];
          case FlushMessage(_, commitments) =>
            t := t + map a | a in commitments :: CommitmentValue(commitments[a]);
        }
      }
      assert buffer[..|buffer|] == buffer;
    }
  }
}
