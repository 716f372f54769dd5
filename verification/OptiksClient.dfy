/** The client of the key directory (ktbench/main.go). */
module OptiksClient {
  import opened Primitives
  import opened Encodings
  import opened TrieKeys
  import opened Optiks
  import opened OptiksObjects

  /** What the client asks of a reply: version n + 1 is absent and every version with a proof is present. */
  ghost predicate Accepts(scheme: TrieScheme, root: Trie, u: User, r: QueryResult)
    requires Fits(u)
  {
    && scheme.verify(root, MakeTrieKey(u, r.currentVersion + 1), r.FullNonMembershipProof()) == Proved(None)
    && forall i :: 0 <= i < |r.versionProofs| ==> Present(VersionVerdict(scheme, root, u, r, i))
  }

  function VersionVerdict(scheme: TrieScheme, root: Trie, u: User, r: QueryResult, i: nat): Verdict
    requires Fits(u) && i < |r.versionProofs|
  {
    scheme.verify(root, MakeTrieKey(u, i + 1), r.FullProof(i))
  }

  predicate Present(v: Verdict) {
    v.Proved? && v.value.Some?
  }

  /** No proof of the reply is rejected. */
  ghost predicate Checked(scheme: TrieScheme, root: Trie, u: User, r: QueryResult)
    requires Fits(u)
  {
    && scheme.verify(root, MakeTrieKey(u, r.currentVersion + 1), r.FullNonMembershipProof()) != Failed
    && forall i :: 0 <= i < |r.versionProofs| ==> VersionVerdict(scheme, root, u, r, i) != Failed
  }

  /** The client's checks; ok means that nothing was logged as an error (verifyOptiksResult). */
  method VerifyOptiksResult(scheme: TrieScheme, root: Trie, u: User, r: QueryResult) returns (ok: bool)
    requires Fits(u)
    ensures ok <==> Accepts(scheme, root, u, r)
  {
    var n := r.currentVersion;
    var verdict := scheme.verify(root, MakeTrieKey(u, n + 1), PrependPrefix(r.commonProofPrefix, r.nextVersionNonMembershipProof));
    ok := verdict == Proved(None);
    for i := 0 to |r.versionProofs|
      invariant ok <==>
                verdict == Proved(None) && forall j :: 0 <= j < i ==> Present(VersionVerdict(scheme, root, u, r, j))
    {
      var proof := PrependPrefix(r.commonProofPrefix, r.versionProofs[i]);
      var v := scheme.verify(root, MakeTrieKey(u, i + 1), proof);
      assert v == VersionVerdict(scheme, root, u, r, i);
      if v == Failed || v.value == None {
        ok := false;
      }
    }
  }

  ghost predicate InScope(log: Log, u: User) {
    AllFit(Pairs(log)) && Fits(u) && SeparateFrom(u, log) && |log| < Bound(7)
  }

  lemma {:induction false} VersionChecked(scheme: TrieScheme, log: Log, u: User, r: QueryResult, i: nat)
    requires Ideal(scheme) && InScope(log, u) && i < |r.versionProofs| < Bound(7)
    ensures var v := VersionVerdict(scheme, TrieAfter(log), u, r, i);
            Present(v) <==> v != Failed && i < |History(log, u)|
  {
    hide History, TrieAfter;
    TrieExact(log, u, i + 1);
    assert Faithful(scheme, TrieAfter(log), MakeTrieKey(u, i + 1), r.FullProof(i));
  }

  lemma {:induction false} NextChecked(scheme: TrieScheme, log: Log, u: User, r: QueryResult)
    requires Ideal(scheme) && InScope(log, u) && r.currentVersion + 1 < Bound(7)
    ensures var v := scheme.verify(TrieAfter(log), MakeTrieKey(u, r.currentVersion + 1), r.FullNonMembershipProof());
            v == Proved(None) <==> v != Failed && |History(log, u)| <= r.currentVersion
  {
    hide History, MakeTrieKey, TrieAfter;
    TrieExact(log, u, r.currentVersion + 1);
    assert Faithful(scheme, TrieAfter(log), MakeTrieKey(u, r.currentVersion + 1), r.FullNonMembershipProof());
  }

  /** A reply is accepted if and only if its proofs are valid and the number of the user's updates lies
      between the number of proofs and the version it claims. */
  lemma {:induction false} AcceptedExactly(scheme: TrieScheme, log: Log, u: User, r: QueryResult)
    requires Ideal(scheme) && InScope(log, u) && r.currentVersion + 1 < Bound(7) && |r.versionProofs| < Bound(7)
    ensures Accepts(scheme, TrieAfter(log), u, r) <==>
            Checked(scheme, TrieAfter(log), u, r) && |r.versionProofs| <= |History(log, u)| <= r.currentVersion
  {
    hide History, TrieAfter, VersionVerdict;
    var trie, count := TrieAfter(log), |History(log, u)|;
    NextChecked(scheme, log, u, r);
    forall i | 0 <= i < |r.versionProofs|
      ensures Present(VersionVerdict(scheme, trie, u, r, i)) <==>
              VersionVerdict(scheme, trie, u, r, i) != Failed && i < count
    {
      VersionChecked(scheme, log, u, r, i);
    }
    if |r.versionProofs| > count {
      assert !Present(VersionVerdict(scheme, trie, u, r, count));
    }
  }

  /** So a reply with a proof for each version that it claims is accepted only with the right version. */
  lemma {:induction false} AcceptedVersionRight(scheme: TrieScheme, log: Log, u: User, r: QueryResult)
    requires Ideal(scheme) && InScope(log, u) && r.currentVersion + 1 < Bound(7)
    requires |r.versionProofs| == r.currentVersion && Accepts(scheme, TrieAfter(log), u, r)
    ensures r.currentVersion == |History(log, u)|
  {
    AcceptedExactly(scheme, log, u, r);
  }

  /** A reply with valid proofs for the first k versions of a user and against version n + 1. */
  ghost function Reply(scheme: TrieScheme, trie: Trie, u: User, k: nat, n: nat): QueryResult
    requires Fits(u)
  {
    QueryResult(None, n, scheme.prove(trie, MakeTrieKey(u, n + 1)), seq(k, i requires 0 <= i => scheme.prove(trie, MakeTrieKey(u, i + 1))),
                0, [], [], [])
  }

  /** The client does not compare the number of proofs with the version claimed: every claim that is not too low is
      accepted, with proofs for any number of versions that is not too high. */
  lemma {:induction false} HighClaimAccepted(scheme: TrieScheme, log: Log, u: User, k: nat, n: nat)
    requires Ideal(scheme) && InScope(log, u) && k <= |History(log, u)| <= n && n + 1 < Bound(7)
    ensures Accepts(scheme, TrieAfter(log), u, Reply(scheme, TrieAfter(log), u, k, n))
  {
    hide History, MakeTrieKey, TrieAfter;
    var trie := TrieAfter(log);
    var r := Reply(scheme, trie, u, k, n);
    assert Faithful(scheme, trie, MakeTrieKey(u, n + 1), r.FullNonMembershipProof());
    forall i | 0 <= i < k ensures VersionVerdict(scheme, trie, u, r, i) != Failed {
      assert Faithful(scheme, trie, MakeTrieKey(u, i + 1), r.FullProof(i));
    }
    AcceptedExactly(scheme, log, u, r);
  }

  /** A log with c updates, all of them of user u. */
  function UserLog(u: User, c: nat): (log: Log)
    ensures |log| == c && forall i :: 0 <= i < c ==> log[i].pair.user == u
  {
    if c == 0 then [] else UserLog(u, c - 1) + [Applied(KVPair(u, []), 0)]
  }

  lemma {:induction false} UserLogHistory(u: User, c: nat)
    ensures |History(UserLog(u, c), u)| == c
  {
    hide History;
    if c > 0 {
      UserLogHistory(u, c - 1);
      HistoryAppend(UserLog(u, c - 1), Applied(KVPair(u, []), 0), u);
    }
  }

  /** With c updates of the user, some reply with k proofs that claims version n is accepted. */
  ghost predicate Possible(scheme: TrieScheme, u: User, k: nat, n: nat, c: nat)
    requires Fits(u)
  {
    exists log: Log, r: QueryResult ::
      && InScope(log, u) && |History(log, u)| == c && |r.versionProofs| == k && r.currentVersion == n
      && Accepts(scheme, TrieAfter(log), u, r)
  }

  /** Accepted replies with k proofs that claim version n leave open exactly the numbers of updates from k to n. */
  lemma {:induction false} PossibleExactly(scheme: TrieScheme, u: User, k: nat, n: nat, c: nat)
    requires Ideal(scheme) && Fits(u) && n + 1 < Bound(7) && k < Bound(7)
    ensures Possible(scheme, u, k, n, c) <==> k <= c <= n
  {
    hide History, TrieAfter, Accepts;
    if k <= c <= n {
      var log := UserLog(u, c);
      UserLogHistory(u, c);
      HighClaimAccepted(scheme, log, u, k, n);
      var r := Reply(scheme, TrieAfter(log), u, k, n);
      assert |r.versionProofs| == k && r.currentVersion == n;
    }
    if Possible(scheme, u, k, n, c) {
      var log: Log, r: QueryResult :| && InScope(log, u) && |History(log, u)| == c && |r.versionProofs| == k && r.currentVersion == n
                    && Accepts(scheme, TrieAfter(log), u, r);
      AcceptedExactly(scheme, log, u, r);
    }
  }

  /** So they determine the version if and only if there is a proof for each version claimed; with more proofs than
      that no reply is accepted. */
  lemma {:induction false} CountDecides(scheme: TrieScheme, u: User, k: nat, n: nat)
    requires Ideal(scheme) && Fits(u) && n + 1 < Bound(7) && k <= n
    ensures (forall c: nat :: Possible(scheme, u, k, n, c) ==> c == n) <==> k == n
  {
    hide Possible;
    forall c: nat ensures Possible(scheme, u, k, n, c) <==> k <= c <= n {
      PossibleExactly(scheme, u, k, n, c);
    }
    assert Possible(scheme, u, k, n, k);
  }

  /** What the server replies is accepted. */
  lemma {:induction false} ServerReplyAccepted(scheme: TrieScheme, log: Log, u: User, r: QueryResult, useCaching: bool)
    requires Ideal(scheme) && InScope(log, u) && |log| + 1 < Bound(7)
    requires Tells(r, History(log, u), useCaching) && ProofsFor(r, scheme, TrieAfter(log), u)
    ensures Accepts(scheme, TrieAfter(log), u, r)
  {
    hide History, TrieAfter;
    var trie := TrieAfter(log);
    assert Faithful(scheme, trie, MakeTrieKey(u, r.currentVersion + 1), r.FullNonMembershipProof());
    forall i | 0 <= i < |r.versionProofs| ensures VersionVerdict(scheme, trie, u, r, i) != Failed {
      assert Faithful(scheme, trie, MakeTrieKey(u, i + 1), r.FullProof(i));
    }
    AcceptedExactly(scheme, log, u, r);
  }
}
