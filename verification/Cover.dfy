/** Covering a range of heap leaves by whole subtrees (proof.go, findCoveringNodes). */
module Cover {
  import opened Heap

  /** a * 2^k. */
  function Shift(a: nat, k: nat): nat {
    if k == 0 then a else 2 * Shift(a, k - 1)
  }

  lemma {:induction false} ShiftMonotone(a: nat, b: nat, k: nat)
    requires a <= b
    ensures Shift(a, k) <= Shift(b, k)
  {
    if k > 0 {
      ShiftMonotone(a, b, k - 1);
    }
  }

  lemma {:induction false} ShiftDouble(a: nat, k: nat)
    ensures Shift(2 * a, k) == 2 * Shift(a, k)
  {
    if k > 0 {
      ShiftDouble(a, k - 1);
    }
  }

  lemma {:induction false} ShiftGrows(a: nat, j: nat, k: nat)
    requires j < k
    ensures 2 * Shift(a, j) <= Shift(a, k)
    decreases k
  {
    if j < k - 1 {
      ShiftGrows(a, j, k - 1);
    }
  }

  /** The k-th ancestor of x, counting nodes from 1; it is 0 above the root. */
  function Up(x: nat, k: nat): nat {
    if k == 0 then x else Up(x / 2, k - 1)
  }

  lemma {:induction false} UpBounds(x: nat, k: nat)
    ensures Shift(Up(x, k), k) <= x < Shift(Up(x, k) + 1, k)
  {
    if k > 0 {
      UpBounds(x / 2, k - 1);
    }
  }

  lemma {:induction false} UpStep(x: nat, k: nat)
    ensures Up(x, k + 1) == Up(x, k) / 2
  {
    if k > 0 {
      UpStep(x / 2, k - 1);
    }
  }

  lemma {:induction false} UpIsBelow(c: nat, x: nat, k: nat)
    requires x > 0 && Up(x, k) == c > 0
    ensures Below(c - 1, x - 1)
    decreases k
  {
    if k > 0 && c != x {
      assert x / 2 > 0 by {
        UpBounds(x / 2, k - 1);
        ShiftAtLeast(c, k - 1);
      }
      UpIsBelow(c, x / 2, k - 1);
      BelowLeq(c - 1, x / 2 - 1);
      assert Parent(x - 1) == x / 2 - 1;
    }
  }

  lemma {:induction false} BelowIsUp(c: nat, x: nat) returns (k: nat)
    requires c > 0 && x > 0 && Below(c - 1, x - 1)
    ensures Up(x, k) == c
    decreases x
  {
    if c == x {
      k := 0;
    } else {
      assert Parent(x - 1) == x / 2 - 1;
      k := BelowIsUp(c, x / 2);
      k := k + 1;
    }
  }

  // ----- the covering nodes

  /** The nodes that the loop reports from the interval [l, r] on. */
  function CoverFrom(l: nat, r: int): (nodes: seq<nat>)
    requires -1 <= r
    decreases r + 1
  {
    if l > r then []
    else
      Reported(l, r) + CoverFrom(l / 2, r / 2 - 1)
  }

  /** One iteration reports a right child at the left end and a left child at the right end. */
  function Reported(l: nat, r: nat): seq<nat> {
    (if l % 2 == 0 then [l] else []) + (if r % 2 == 1 then [r] else [])
  }

  /** How many of the listed nodes lie above x. */
  function CountAbove(nodes: seq<nat>, x: nat): nat {
    if nodes == [] then 0
    else (if Below(nodes[0], x) then 1 else 0) + CountAbove(nodes[1..], x)
  }

  lemma {:induction false} CountAboveConcat(a: seq<nat>, b: seq<nat>, x: nat)
    ensures CountAbove(a + b, x) == CountAbove(a, x) + CountAbove(b, x)
  {
    if a == [] {
      assert a + b == b;
    } else {
      assert (a + b)[1..] == a[1..] + b;
      CountAboveConcat(a[1..], b, x);
    }
  }

  lemma {:induction false} CountParts(l: nat, r: nat, rest: seq<nat>, x: nat)
    ensures CountAbove(Reported(l, r) + rest, x) ==
            (if l % 2 == 0 && Below(l, x) then 1 else 0) + (if r % 2 == 1 && Below(r, x) then 1 else 0) +
            CountAbove(rest, x)
  {
    CountAboveConcat(Reported(l, r), rest, x);
    CountAboveConcat(if l % 2 == 0 then [l] else [], if r % 2 == 1 then [r] else [], x);
  }

  /** The loop invariant: the interval [l, r] stands for whole subtrees of height k over leaves. */
  ghost predicate Spans(l: nat, r: int, k: nat, n: nat)
    requires -1 <= r
  {
    n <= Shift(l + 1, k) && Shift(r + 2, k) <= 2 * n
  }

  /** In a node whose subtree of height k holds heap leaves only, every leaf is k levels down. */
  lemma {:induction false} AboveAtHeight(c: nat, k: nat, n: nat, x: nat)
    requires Spans(c, c, k, n) && n - 1 <= x < 2 * n - 1
    ensures Below(c, x) <==> Up(x + 1, k) == c + 1
  {
    hide Up;
    if Up(x + 1, k) == c + 1 {
      UpIsBelow(c + 1, x + 1, k);
    }
    if Below(c, x) {
      var j := BelowIsUp(c + 1, x + 1);
      UpBounds(x + 1, j);
      if k < j {
        ShiftGrows(c + 1, k, j);
        assert false;
      } else if j < k {
        ShiftGrows(c + 2, j, k);
        assert false;
      }
    }
  }

  lemma {:induction false} HalfShift(l: nat, r: nat, k: nat)
    ensures Shift(l + 1, k) <= Shift(l / 2 + 1, k + 1)
    ensures Shift(r / 2 + 1, k + 1) <= Shift(r + 2, k)
  {
    ShiftDouble(l / 2 + 1, k);
    ShiftMonotone(l + 1, 2 * (l / 2 + 1), k);
    ShiftDouble(r / 2 + 1, k);
    ShiftMonotone(2 * (r / 2 + 1), r + 2, k);
  }

  lemma {:induction false} SpansStep(l: nat, r: int, k: nat, n: nat)
    requires 0 <= l <= r && Spans(l, r, k, n)
    ensures Spans(l, l, k, n) && Spans(r, r, k, n)
    ensures Spans(l / 2, r / 2 - 1, k + 1, n)
  {
    ShiftMonotone(l + 2, r + 2, k);
    ShiftMonotone(l + 1, r + 1, k);
    HalfShift(l, r, k);
  }

  lemma {:induction false} HalfInterval(l: nat, r: nat, u: nat)
    requires l <= r
    ensures (if l + 1 <= u <= r + 1 then 1 else 0) ==
            (if l % 2 == 0 && u == l + 1 then 1 else 0) + (if r % 2 == 1 && u == r + 1 then 1 else 0) +
            (if l / 2 + 1 <= u / 2 <= r / 2 then 1 else 0)
  {
  }

  lemma {:induction false} CoverCount(l: nat, r: int, k: nat, n: nat, x: nat)
    requires -1 <= r && Spans(l, r, k, n) && n - 1 <= x < 2 * n - 1
    ensures CountAbove(CoverFrom(l, r), x) == if l + 1 <= Up(x + 1, k) <= r + 1 then 1 else 0
    decreases r + 1
  {
    if l <= r {
      var rest := CoverFrom(l / 2, r / 2 - 1);
      CountParts(l, r, rest, x);
      SpansStep(l, r, k, n);
      AboveAtHeight(l, k, n, x);
      AboveAtHeight(r, k, n, x);
      CoverCount(l / 2, r / 2 - 1, k + 1, n, x);
      UpStep(x + 1, k);
      HalfInterval(l, r, Up(x + 1, k));
    }
  }

  /** How many of the listed nodes lie above leaf j. */
  function CountAboveLeaf(nodes: seq<nat>, n: nat, j: nat): nat
    requires n > 0
  {
    CountAbove(nodes, n - 1 + j)
  }

  /** Each leaf in [L, R] lies below exactly one of the nodes, and no other leaf below any. */
  ghost predicate ExactCover(nodes: seq<nat>, n: nat, L: nat, R: nat)
    requires n > 0
  {
    forall j :: 0 <= j < n ==> CountAboveLeaf(nodes, n, j) == if L <= j <= R then 1 else 0
  }

  /** The cover is exact whether or not n is a power of two. */
  lemma {:induction false} CoverExact(n: nat, L: nat, R: nat)
    requires L <= R < n
    ensures ExactCover(CoverFrom(L + n - 1, R + n - 1), n, L, R)
  {
    var nodes := CoverFrom(L + n - 1, R + n - 1);
    forall j | 0 <= j < n ensures CountAboveLeaf(nodes, n, j) == if L <= j <= R then 1 else 0 {
      CoverCount(L + n - 1, R + n - 1, 0, n, n - 1 + j);
    }
  }

  lemma {:induction false} ShiftAtLeast(a: nat, k: nat)
    ensures a <= Shift(a, k)
  {
    if k > 0 {
      ShiftAtLeast(a, k - 1);
    }
  }

  lemma {:induction false} CoverInHeap(l: nat, r: int, k: nat, n: nat)
    requires -1 <= r && Spans(l, r, k, n)
    ensures forall c :: c in CoverFrom(l, r) ==> c < 2 * n - 1
    decreases r + 1
  {
    if l <= r {
      SpansStep(l, r, k, n);
      CoverInHeap(l / 2, r / 2 - 1, k + 1, n);
      ShiftAtLeast(r + 2, k);
    }
  }

  lemma {:induction false} HasLeaf(n: nat, c: nat) returns (j: nat)
    requires c < 2 * n - 1
    ensures j < n && Below(c, n - 1 + j)
    decreases 2 * n - c
  {
    if c >= n - 1 {
      j := c - (n - 1);
    } else {
      j := HasLeaf(n, 2 * c + 1);
      BelowChild(c, n - 1 + j);
    }
  }

  lemma {:induction false} CountAboveMember(nodes: seq<nat>, i: nat, x: nat)
    requires i < |nodes| && Below(nodes[i], x)
    ensures CountAbove(nodes, x) >= 1
  {
    if i > 0 {
      CountAboveMember(nodes[1..], i - 1, x);
    }
  }

  lemma {:induction false} CountAboveTwice(nodes: seq<nat>, i: nat, j: nat, x: nat)
    requires i < j < |nodes| && Below(nodes[i], x) && Below(nodes[j], x)
    ensures CountAbove(nodes, x) >= 2
  {
    if i == 0 {
      CountAboveMember(nodes[1..], j - 1, x);
    } else {
      CountAboveTwice(nodes[1..], i - 1, j - 1, x);
    }
  }

  /** Exactly covering nodes are pairwise disjoint subtrees. */
  lemma {:induction false} CoverDisjoint(nodes: seq<nat>, n: nat, L: nat, R: nat, i: nat, j: nat, y: nat)
    requires n > 0 && ExactCover(nodes, n, L, R)
    requires i < j < |nodes| && y < n
    ensures !(LeafBelow(n, nodes[i], y) && LeafBelow(n, nodes[j], y))
  {
    assert CountAboveLeaf(nodes, n, y) <= 1;
    if LeafBelow(n, nodes[i], y) && LeafBelow(n, nodes[j], y) {
      CountAboveTwice(nodes, i, j, n - 1 + y);
    }
  }

  lemma {:induction false} CountAboveWitness(nodes: seq<nat>, x: nat) returns (c: nat)
    requires CountAbove(nodes, x) > 0
    ensures c in nodes && Below(c, x)
  {
    if Below(nodes[0], x) {
      c := nodes[0];
    } else {
      c := CountAboveWitness(nodes[1..], x);
    }
  }

  predicate Distinct<T(==)>(s: seq<T>) {
    forall i, j :: 0 <= i < j < |s| ==> s[i] != s[j]
  }

  lemma {:induction false} CoverDistinct(nodes: seq<nat>, n: nat, L: nat, R: nat)
    requires n > 0 && ExactCover(nodes, n, L, R)
    requires forall i :: 0 <= i < |nodes| ==> nodes[i] < 2 * n - 1
    ensures Distinct(nodes)
  {
    forall i, j | 0 <= i < j < |nodes| ensures nodes[i] != nodes[j] {
      var y := HasLeaf(n, nodes[i]);
      CoverDisjoint(nodes, n, L, R, i, j, y);
    }
  }

  // ----- the number of covering nodes

  /** The depth of a node, counting nodes from 1. */
  function Level(x: nat): nat {
    if x <= 1 then 0 else 1 + Level(x / 2)
  }

  function CountLevel(nodes: seq<nat>, d: nat): nat {
    if nodes == [] then 0
    else (if Level(nodes[0] + 1) == d then 1 else 0) + CountLevel(nodes[1..], d)
  }

  lemma {:induction false} CountLevelConcat(a: seq<nat>, b: seq<nat>, d: nat)
    ensures CountLevel(a + b, d) == CountLevel(a, d) + CountLevel(b, d)
  {
    if a == [] {
      assert a + b == b;
    } else {
      assert (a + b)[1..] == a[1..] + b;
      CountLevelConcat(a[1..], b, d);
    }
  }

  /** x is the first node of its level. */
  predicate Leftmost(x: nat) {
    x <= 1 || (x % 2 == 0 && Leftmost(x / 2))
  }

  lemma {:induction false} LevelSuccessor(x: nat)
    requires x > 0
    ensures Level(x + 1) == if Leftmost(x + 1) then Level(x) + 1 else Level(x)
  {
    if x > 1 {
      LevelSuccessor(x / 2);
    }
  }

  function LeftBound(x: nat, d: nat): nat {
    if Leftmost(x) then (if d == 0 then 1 else 0) else if d <= Level(x) then 1 else 0
  }

  function RightBound(x: nat, d: nat): nat {
    if d <= Level(x) && x > 0 then 1 else 0
  }

  lemma {:induction false} LevelParts(l: nat, r: nat, rest: seq<nat>, d: nat)
    ensures CountLevel(Reported(l, r) + rest, d) ==
            (if l % 2 == 0 && Level(l + 1) == d then 1 else 0) + (if r % 2 == 1 && Level(r + 1) == d then 1 else 0) +
            CountLevel(rest, d)
  {
    CountLevelConcat(Reported(l, r), rest, d);
    CountLevelConcat(if l % 2 == 0 then [l] else [], if r % 2 == 1 then [r] else [], d);
  }

  /** Leaving node x (1-based, odd if reported) upwards from the left uses up its level. */
  lemma {:induction false} LeftBoundStep(x: nat, d: nat)
    requires x > 1
    ensures LeftBound((x + 1) / 2, d) + (if x % 2 == 1 && Level(x) == d then 1 else 0) <= LeftBound(x, d)
  {
    var y := x / 2;
    assert Level(x) == 1 + Level(y);
    if x % 2 == 1 {
      LevelSuccessor(y);
      assert !Leftmost(x);
      assert (x + 1) / 2 == y + 1;
    } else {
      assert (x + 1) / 2 == y;
    }
  }

  lemma {:induction false} RightBoundStep(x: nat, d: nat)
    requires x > 0
    ensures RightBound((x - 1) / 2, d) + (if x % 2 == 0 && Level(x) == d then 1 else 0) <= RightBound(x, d)
  {
    var y := x / 2;
    if x > 1 {
      assert Level(x) == 1 + Level(y);
    }
    if x % 2 == 0 {
      assert (x - 1) / 2 == y - 1;
      if y > 1 {
        LevelSuccessor(y - 1);
      }
    } else {
      assert (x - 1) / 2 == y;
    }
  }

  lemma {:induction false} CoverLevel(l: nat, r: int, k: nat, n: nat, d: nat)
    requires -1 <= r && Spans(l, r, k, n)
    ensures CountLevel(CoverFrom(l, r), d) <= LeftBound(l + 1, d) + RightBound(r + 1, d)
    decreases r + 1
  {
    if l <= r {
      var rest := CoverFrom(l / 2, r / 2 - 1);
      LevelParts(l, r, rest, d);
      SpansStep(l, r, k, n);
      CoverLevel(l / 2, r / 2 - 1, k + 1, n, d);
      if l == 0 {
        RootSpans(r, k, n);
        assert rest == [];
      }
      LevelBounds(l, r, d, CountLevel(rest, d));
    }
  }

  lemma {:induction false} LevelBounds(l: nat, r: nat, d: nat, rest: nat)
    requires l <= r && (l == 0 ==> r == 0 && rest == 0)
    requires rest <= LeftBound(l / 2 + 1, d) + RightBound(r / 2, d)
    ensures (if l % 2 == 0 && Level(l + 1) == d then 1 else 0) + (if r % 2 == 1 && Level(r + 1) == d then 1 else 0) + rest <=
            LeftBound(l + 1, d) + RightBound(r + 1, d)
  {
    hide Level;
    RightBoundStep(r + 1, d);
    if l > 0 {
      LeftBoundStep(l + 1, d);
      assert (l + 2) / 2 == l / 2 + 1;
    }
  }

  lemma {:induction false} RootSpans(r: nat, k: nat, n: nat)
    requires Spans(0, r, k, n)
    ensures r == 0
  {
    if r > 0 {
      ShiftMonotone(3, r + 2, k);
      Triple(k);
      ShiftAtLeast(1, k);
    }
  }

  lemma {:induction false} Triple(k: nat)
    ensures Shift(3, k) == 3 * Shift(1, k)
  {
    if k > 0 {
      Triple(k - 1);
    }
  }

  /** At most two covering nodes lie on any level, so their number is logarithmic. */
  lemma {:induction false} CoverTwoPerLevel(n: nat, L: nat, R: nat, d: nat)
    requires L <= R < n
    ensures CountLevel(CoverFrom(L + n - 1, R + n - 1), d) <= 2
  {
    hide CountLevel, CoverFrom;
    CoverLevel(L + n - 1, R + n - 1, 0, n, d);
  }

  lemma {:induction false} CoverStep(done: seq<nat>, l: nat, r: nat)
    requires l <= r
    ensures var done1 := if l % 2 == 0 then done + [l] else done;
            var done2 := if r % 2 == 1 then done1 + [r] else done1;
            done + CoverFrom(l, r) == done2 + CoverFrom(l / 2, r / 2 - 1)
  {
  }

  lemma {:induction false} CoverProperties(n: nat, L: nat, R: nat)
    requires L <= R < n
    ensures var nodes := CoverFrom(L + n - 1, R + n - 1);
            && ExactCover(nodes, n, L, R)
            && Distinct(nodes)
            && (forall c :: c in nodes ==> c < 2 * n - 1)
            && (forall d :: CountLevel(nodes, d) <= 2)
  {
    var nodes := CoverFrom(L + n - 1, R + n - 1);
    CoverExact(n, L, R);
    CoverInHeap(L + n - 1, R + n - 1, 0, n);
    assert forall i :: 0 <= i < |nodes| ==> nodes[i] in nodes;
    CoverDistinct(nodes, n, L, R);
    forall d ensures CountLevel(nodes, d) <= 2 {
      CoverTwoPerLevel(n, L, R, d);
    }
  }

  method FindCoveringNodes(n: nat, L: nat, R: nat) returns (nodes: seq<nat>)
    requires L <= R < n
    ensures nodes == CoverFrom(L + n - 1, R + n - 1)
    ensures ExactCover(nodes, n, L, R)
    ensures Distinct(nodes)
    ensures forall c :: c in nodes ==> c < 2 * n - 1
    ensures forall d :: CountLevel(nodes, d) <= 2
  {
    var base := n - 1;
    var l, r := L + base, R + base;
    nodes := [];
    ghost var target := CoverFrom(l, r);
    while l <= r
      invariant 0 <= l && -1 <= r
      invariant target == nodes + CoverFrom(l, r)
      decreases r
    {
      CoverStep(nodes, l, r);
      ghost var upperLeft, upperRight := l / 2, r / 2 - 1;
      ghost var rest := CoverFrom(upperLeft, upperRight);
      if l % 2 == 0 {
        nodes := nodes + [l];
        l := l + 1;
      }
      if r % 2 == 1 {
        nodes := nodes + [r];
        r := r - 1;
      }
      l := (l - 1) / 2;
      r := (r - 1) / 2;
      assert l == upperLeft && r == upperRight;
      assert target == nodes + rest;
    }
    CoverProperties(n, L, R);
  }
}
