/** The account cache over the database (cache.go, account.go). */
module AccountCache {
  import opened Primitives
  import opened Layers
  import opened SegmentTree
  import opened Accounts
  import opened AccountObjects

  /** What is known of an account: in memory, its state and records agree with its updates;
      otherwise its records alone do. */
  ghost predicate Known(a: Option<AccountState>, r: Records, u: seq<BalanceUpdate>) {
    if a.Some? then u != [] && InMemory(a.value, r, u)
    else if u != [] then Saved(r, u)
    else r == NO_RECORDS
  }

  /** A cache of account states; an evicted account is saved first. */
  class Cache {
    const size: nat
    const sdb: SamuraiStore
    var entries: map<Account, AccountState>
    ghost var log: map<Account, seq<BalanceUpdate>>

    ghost function CachedState(k: Account): Option<AccountState>
      reads this
    {
      if k in entries then Some(entries[k]) else None
    }

    /** The updates of account k so far. */
    ghost function LogOf(k: Account): seq<BalanceUpdate>
      reads this
    {
      if k in log then log[k] else []
    }

    ghost predicate Tracks(k: Account)
      reads this, sdb
    {
      Known(CachedState(k), sdb.RecordsOf(k), LogOf(k))
    }

    ghost predicate Valid()
      reads this, sdb
    {
      0 < size && |entries| <= size && forall k: Account :: Tracks(k)
    }

    constructor (capacity: nat)
      requires 0 < capacity
      ensures Valid() && log == map[] && entries == map[] && fresh(sdb)
    {
      size := capacity;
      sdb := new SamuraiStore();
      entries := map[];
      log := map[];
    }

    /** Save an account and drop it from the cache (the eviction callback). */
    method Evict(k: Account)
      requires k in entries
      requires forall j: Account :: Tracks(j)
      modifies this`entries, sdb
      ensures entries == old(entries) - {k} && |entries| == |old(entries)| - 1
      ensures forall j: Account :: Tracks(j)
      ensures forall j: Account :: j != k ==> sdb.RecordsOf(j) == old(sdb.RecordsOf(j))
    {
      assert Tracks(k);
      SaveSaves(entries[k], sdb.RecordsOf(k), LogOf(k));
      sdb.records := sdb.records[k := Save(entries[k], sdb.RecordsOf(k))];
      entries := entries - {k};
      assert entries.Keys == old(entries.Keys) - {k};
      forall j: Account ensures Tracks(j) {
        assert old(Tracks(j));
        assert LogOf(j) == old(LogOf(j));
      }
    }

    /** The state of account k: cached, loaded, or new. */
    method Fetch(k: Account) returns (a: AccountState)
      requires Tracks(k)
      ensures k in entries ==> a == entries[k]
      ensures if LogOf(k) != [] then InMemory(a, sdb.RecordsOf(k), LogOf(k))
              else a == NewAccount() && sdb.RecordsOf(k) == NO_RECORDS
    {
      if k in entries {
        a := entries[k];
      } else {
        var r := sdb.RecordsOf(k);
        if r.current == None {
          a := NewAccount();
        } else {
          a := Load(r);
        }
      }
    }

    /** Keep an account's new state and records. */
    method Put(k: Account, a: AccountState, r: Records, ghost u: seq<BalanceUpdate>)
      requires Known(Some(a), r, u)
      requires forall j: Account :: Tracks(j)
      modifies this`entries, this`log, sdb
      ensures forall j: Account :: Tracks(j)
      ensures entries == old(entries)[k := a] && log == old(log)[k := u]
      ensures forall j: Account :: j != k ==> sdb.RecordsOf(j) == old(sdb.RecordsOf(j))
    {
      log := log[k := u];
      sdb.records := sdb.records[k := r];
      entries := entries[k := a];
      forall j: Account ensures Tracks(j) {
        assert old(Tracks(j));
      }
    }

    /** Fetch an account, apply the update and keep it in the cache. */
    method Apply(k: Account, x: BalanceUpdate) returns (h: Hash)
      requires forall j: Account :: Tracks(j)
      modifies this`entries, this`log, sdb
      ensures forall j: Account :: Tracks(j)
      ensures entries.Keys == old(entries.Keys) + {k}
      ensures log == old(log)[k := old(LogOf(k)) + [x]]
      ensures h == CommitmentAfter(old(LogOf(k)) + [x])
      ensures forall j: Account :: j != k ==> sdb.RecordsOf(j) == old(sdb.RecordsOf(j))
    {
      hide UpdateAccount, UpdateRecords, FinalCommitment, CommitmentAfter;
      assert Tracks(k);
      var a := Fetch(k);
      var r := sdb.RecordsOf(k);
      Updated(a, r, LogOf(k), x);
      h := FinalCommitment(UpdateAccount(a, x));
      Put(k, UpdateAccount(a, x), UpdateRecords(a, r, x), LogOf(k) + [x]);
    }

    /** Update an account through the cache and return its commitment hash (Cache.Update and
        CreateOrUpdateAccountInfoBulk).  Whichever accounts are evicted, the hash depends only on
        the account's own updates.  An account is evicted only from a full cache, and only one; the records of
        accounts that stay in the cache or were not in it do not change. */
    method CreateOrUpdate(k: Account, x: BalanceUpdate) returns (h: Hash)
      requires Valid()
      modifies this`entries, this`log, sdb
      ensures Valid()
      ensures log == old(log)[k := old(LogOf(k)) + [x]]
      ensures h == CommitmentAfter(old(LogOf(k)) + [x])
      ensures k in entries && entries.Keys <= old(entries.Keys) + {k}
      ensures if k in old(entries) || |old(entries)| < size then entries.Keys == old(entries.Keys) + {k} else |entries| == size
      ensures forall j: Account :: j != k && (j in entries || j !in old(entries)) ==> sdb.RecordsOf(j) == old(sdb.RecordsOf(j))
    {
      ghost var before := entries.Keys;
      h := Apply(k, x);
      WithOne(before, k);
      assert |entries| == |entries.Keys|;
      if |entries| > size {
        var victim := Victim(k);
        Evict(victim);
      }
    }

    /** Some account other than the one just added; the model leaves open which one is evicted. */
    method Victim(k: Account) returns (victim: Account)
      requires k in entries && |entries| > 1
      ensures victim in entries && victim != k
    {
      assert entries.Keys != {k};
      victim :| victim in entries && victim != k;
    }

    /** Flush every account (Close): afterwards the database alone determines every account. */
    method Close()
      requires Valid()
      modifies this`entries, sdb
      ensures Valid() && entries == map[]
      ensures forall k: Account :: LogOf(k) != [] ==> Saved(sdb.RecordsOf(k), LogOf(k))
    {
      while |entries| > 0
        invariant Valid()
        decreases |entries|
      {
        var k :| k in entries;
        Evict(k);
      }
      forall k: Account | LogOf(k) != [] ensures Saved(sdb.RecordsOf(k), LogOf(k)) {
        assert Tracks(k);
      }
    }
  }

  lemma {:induction false} WithOne<T>(s: set<T>, x: T)
    ensures |s + {x}| == if x in s then |s| else |s| + 1
  {
    if x in s {
      assert s + {x} == s;
    }
  }

  lemma {:induction false} Updated(a: AccountState, r: Records, u: seq<BalanceUpdate>, x: BalanceUpdate)
    requires if u != [] then InMemory(a, r, u) else a == NewAccount() && r == NO_RECORDS
    ensures Known(Some(UpdateAccount(a, x)), UpdateRecords(a, r, x), u + [x])
    ensures FinalCommitment(UpdateAccount(a, x)) == CommitmentAfter(u + [x])
  {
    if u != [] {
      UpdateInMemory(a, r, u, x);
    } else {
      FirstUpdateInMemory(x);
      assert u + [x] == [x];
    }
    StateCommitment(UpdateAccount(a, x), u + [x]);
  }

  // ----- the run without a cache

  /** The state of an account that always stays in memory. */
  function Uncached(u: Updates): AccountState
    decreases |u|
  {
    if |u| == 1 then UpdateAccount(NewAccount(), u[0])
    else UpdateAccount(Uncached(u[..|u| - 1]), u[|u| - 1])
  }

  lemma {:induction false} Singleton<T>(s: seq<T>)
    requires |s| == 1
    ensures s == [s[0]]
  {
  }

  lemma {:induction false} UncachedState(u: Updates)
    ensures StateAfter(Uncached(u), u)
    decreases |u|
  {
    hide StateAfter;
    if |u| == 1 {
      Singleton(u);
      FirstUpdateState(u[0]);
    } else {
      var before: Updates := u[..|u| - 1];
      UncachedState(before);
      UpdateState(Uncached(before), before, u[|u| - 1]);
      assert before + [u[|u| - 1]] == u;
    }
  }

  /** Cached and uncached runs commit to the same hash. */
  lemma {:induction false} UncachedCommitment(u: Updates)
    ensures StateAfter(Uncached(u), u)
    ensures FinalCommitment(Uncached(u)) == CommitmentAfter(u)
  {
    UncachedState(u);
    StateCommitment(Uncached(u), u);
  }
}
