/** The choice of a new server for every volume of a failed node: the least loaded node is
    reserved, one volume at a time, under a lock (nfs/noderecovery.go). Goroutines reserve
    in any order and the map is visited in any order, so a run is any sequence of choices
    that the method below may make. */
module Reservations {

  const MAX_INT := 0x7fff_ffff_ffff_ffff

  type Counts = map<string, int>

  // --- One reservation ---

  /** The node has a load below the largest integer and no node has less; if there is no
      such node the empty name is chosen. */
  ghost predicate Chosen(counts: Counts, node: string) {
    if exists n :: n in counts && counts[n] < MAX_INT then
      node in counts && counts[node] < MAX_INT && forall n :: n in counts ==> counts[node] <= counts[n]
    else
      node == ""
  }

  function Reserve(counts: Counts, node: string): Counts {
    counts[node := (if node in counts then counts[node] else 0) + 1]
  }

  class ExportCounts {
    var counts: Counts

    constructor (counts: Counts)
      ensures this.counts == counts
    {
      this.counts := counts;
    }

    method FindNextAvailableNode() returns (selectedNode: string)
      modifies this
      ensures Chosen(old(counts), selectedNode)
      ensures counts == Reserve(old(counts), selectedNode)
    {
      var lowest := MAX_INT;
      selectedNode := "";
      var rest := counts.Keys;
      while rest != {}
        invariant rest <= counts.Keys
        invariant forall n :: n in counts && n !in rest ==> lowest <= counts[n]
        invariant if lowest == MAX_INT then selectedNode == ""
                  else selectedNode in counts && counts[selectedNode] == lowest < MAX_INT
        decreases rest
      {
        var nodeName :| nodeName in rest;
        if counts[nodeName] < lowest {
          selectedNode := nodeName;
          lowest := counts[nodeName];
        }
        rest := rest - {nodeName};
      }
      counts := counts[selectedNode := (if selectedNode in counts then counts[selectedNode] else 0) + 1];
    }
  }

  // --- Runs of reservations ---

  ghost predicate Run(counts: Counts, picks: seq<string>)
    decreases |picks|
  {
    picks == [] || (Chosen(counts, picks[0]) && Run(Reserve(counts, picks[0]), picks[1..]))
  }

  ghost function After(counts: Counts, picks: seq<string>): Counts
    decreases |picks|
  {
    if picks == [] then counts else After(Reserve(counts, picks[0]), picks[1..])
  }

  /** There is a node, and k more reservations overflow no count. */
  ghost predicate Roomy(counts: Counts, k: nat) {
    counts != map[] && forall n :: n in counts ==> counts[n] + k <= MAX_INT
  }

  lemma FirstPick(counts: Counts, picks: seq<string>)
    requires Roomy(counts, |picks|) && picks != [] && Run(counts, picks)
    ensures picks[0] in counts && forall n :: n in counts ==> counts[picks[0]] <= counts[n]
    ensures Roomy(Reserve(counts, picks[0]), |picks| - 1)
  {
    var n :| n in counts;
    assert counts[n] < MAX_INT;
  }

  // --- Sums over a map ---

  ghost function Sum(m: Counts): int
    decreases |m|
  {
    if m == map[] then 0
    else
      var n :| n in m;
      m[n] + Sum(m - {n})
  }

  lemma {:induction false} SumRemove(m: Counts, n: string)
    requires n in m
    ensures Sum(m) == m[n] + Sum(m - {n})
    decreases |m|
  {
    var k :| k in m && Sum(m) == m[k] + Sum(m - {k});
    if k != n {
      SumRemove(m - {k}, n);
      SumRemove(m - {n}, k);
      assert m - {k} - {n} == m - {n} - {k};
    }
  }

  lemma SumUpdate(m: Counts, n: string, v: int)
    requires n in m
    ensures Sum(m[n := v]) == Sum(m) - m[n] + v
  {
    SumRemove(m, n);
    SumRemove(m[n := v], n);
    assert m[n := v] - {n} == m - {n};
  }

  lemma {:induction false} SumMonotone(a: Counts, b: Counts)
    requires a.Keys == b.Keys && forall n :: n in a ==> a[n] <= b[n]
    ensures Sum(a) <= Sum(b)
    ensures Sum(a) == Sum(b) ==> a == b
    decreases |a|
  {
    if a != map[] {
      var n :| n in a;
      SumRemove(a, n);
      SumRemove(b, n);
      SumMonotone(a - {n}, b - {n});
      if Sum(a) == Sum(b) {
        assert a == (a - {n})[n := a[n]];
        assert b == (b - {n})[n := b[n]];
      }
    } else {
      assert b == map[];
    }
  }

  function Shift(m: Counts, t: int): Counts {
    map n | n in m :: m[n] - t
  }

  lemma ShiftRemove(m: Counts, n: string, t: int)
    requires n in m
    ensures Sum(Shift(m, t)) == m[n] - t + Sum(Shift(m - {n}, t))
  {
    SumRemove(Shift(m, t), n);
    assert Shift(m, t) - {n} == Shift(m - {n}, t);
  }

  /** Lowering every load by the same amount keeps the difference between two totals. */
  lemma {:induction false} ShiftDifference(a: Counts, b: Counts, t: int)
    requires a.Keys == b.Keys
    ensures Sum(Shift(b, t)) - Sum(Shift(a, t)) == Sum(b) - Sum(a)
    decreases |a|
  {
    if a == map[] {
      assert b == map[];
      assert Shift(a, t) == map[] == Shift(b, t);
    } else {
      var n :| n in a;
      SumRemove(a, n);
      SumRemove(b, n);
      ShiftRemove(a, n, t);
      ShiftRemove(b, n, t);
      ShiftDifference(a - {n}, b - {n}, t);
    }
  }

  // --- Loads above a threshold ---

  function Over(m: Counts, t: int): Counts {
    map n | n in m :: if m[n] > t then m[n] - t else 0
  }

  /** How much load lies above the threshold, over all nodes. */
  ghost function Excess(m: Counts, t: int): int {
    Sum(Over(m, t))
  }

  /** The load above the threshold less the room below it. */
  ghost function Balance(m: Counts, t: int): int {
    Sum(Shift(m, t))
  }

  lemma ExcessBound(m: Counts, t: int)
    ensures Excess(m, t) >= Balance(m, t)
  {
    SumMonotone(Shift(m, t), Over(m, t));
  }

  lemma ExcessWithoutRoom(m: Counts, t: int)
    requires forall n :: n in m ==> m[n] >= t
    ensures Excess(m, t) == Balance(m, t)
  {
    assert Shift(m, t) == Over(m, t);
  }

  lemma ExcessWithRoom(m: Counts, t: int, n: string)
    requires n in m && m[n] < t
    ensures Excess(m, t) >= Balance(m, t) + 1
  {
    SumMonotone(Shift(m, t)[n := 0], Over(m, t));
    SumUpdate(Shift(m, t), n, 0);
  }

  lemma {:induction false} SumZero(m: Counts)
    requires forall n :: n in m ==> m[n] == 0
    ensures Sum(m) == 0
    decreases |m|
  {
    if m != map[] {
      var n :| n in m;
      SumRemove(m, n);
      SumZero(m - {n});
    }
  }

  lemma ExcessZeroIff(m: Counts, t: int)
    ensures Excess(m, t) >= 0
    ensures Excess(m, t) == 0 <==> forall n :: n in m ==> m[n] <= t
  {
    var zero := map n | n in m :: 0;
    SumZero(zero);
    SumMonotone(zero, Over(m, t));
    assert (forall n :: n in m ==> m[n] <= t) ==> Over(m, t) == zero;
    assert Over(m, t) == zero ==> forall n :: n in m ==> zero[n] == Over(m, t)[n];
  }

  lemma SumReserve(m: Counts, node: string)
    requires node in m
    ensures Sum(Reserve(m, node)) == Sum(m) + 1
    ensures Reserve(m, node).Keys == m.Keys
  {
    var more := m[node := m[node] + 1];
    assert Reserve(m, node) == more;
    assert Sum(more) == Sum(m) + 1 by { SumUpdate(m, node, m[node] + 1); }
    assert more.Keys == m.Keys + {node} == m.Keys;
  }

  lemma ExcessReserve(m: Counts, node: string, t: int)
    requires node in m
    ensures Excess(Reserve(m, node), t) == Excess(m, t) + if m[node] >= t then 1 else 0
  {
    var over := Over(m, t);
    var more := over[node] + if m[node] >= t then 1 else 0;
    assert Over(Reserve(m, node), t) == over[node := more];
    SumUpdate(over, node, more);
  }

  // --- What a run of reservations achieves ---

  /** The total grows by one per reservation; no node appears or disappears; every node
      that is chosen is one of them; and loads never fall. */
  lemma {:induction false} RunTotals(counts: Counts, picks: seq<string>)
    requires Roomy(counts, |picks|) && Run(counts, picks)
    ensures After(counts, picks).Keys == counts.Keys
    ensures Sum(After(counts, picks)) == Sum(counts) + |picks|
    ensures forall i :: 0 <= i < |picks| ==> picks[i] in counts
    ensures forall n :: n in counts ==> counts[n] <= After(counts, picks)[n]
    decreases |picks|
  {
    if picks != [] {
      FirstPick(counts, picks);
      SumReserve(counts, picks[0]);
      var next := Reserve(counts, picks[0]);
      RunTotals(next, picks[1..]);
      forall i | 0 <= i < |picks| ensures picks[i] in counts {
        if i > 0 {
          assert picks[i] == picks[1..][i - 1];
        }
      }
    }
  }

  /** One reservation adds to the load above a threshold only when no node has room. */
  lemma ExcessStep(counts: Counts, node: string, t: int)
    requires node in counts && forall n :: n in counts ==> counts[node] <= counts[n]
    ensures Balance(Reserve(counts, node), t) == Balance(counts, t) + 1
    ensures Excess(Reserve(counts, node), t) ==
            if Excess(counts, t) >= Balance(counts, t) + 1 then Excess(counts, t) else Balance(counts, t) + 1
  {
    SumReserve(counts, node);
    ShiftDifference(counts, Reserve(counts, node), t);
    ExcessReserve(counts, node, t);
    if counts[node] < t {
      ExcessWithRoom(counts, t, node);
    } else {
      ExcessWithoutRoom(counts, t);
    }
  }

  /** The load above any threshold ends at the least that the start and the total allow. */
  lemma {:induction false} RunExcess(counts: Counts, picks: seq<string>, t: int)
    requires Roomy(counts, |picks|) && Run(counts, picks)
    ensures var least := Balance(counts, t) + |picks|;
            Excess(After(counts, picks), t) == if Excess(counts, t) >= least then Excess(counts, t) else least
    decreases |picks|
  {
    if picks == [] {
      ExcessBound(counts, t);
    } else {
      FirstPick(counts, picks);
      ExcessStep(counts, picks[0], t);
      RunExcess(Reserve(counts, picks[0]), picks[1..], t);
    }
  }

  /** Any way of giving k volumes to the nodes. */
  ghost predicate Allocation(counts: Counts, k: nat, other: Counts) {
    && other.Keys == counts.Keys
    && (forall n :: n in counts ==> counts[n] <= other[n])
    && Sum(other) == Sum(counts) + k
  }

  /** Least-loaded reservation is optimal: for every threshold, no way of giving the same
      number of volumes to the nodes leaves less load above it. */
  lemma ReservationsAreOptimal(counts: Counts, picks: seq<string>, other: Counts, t: int)
    requires Roomy(counts, |picks|) && Run(counts, picks)
    requires Allocation(counts, |picks|, other)
    ensures Allocation(counts, |picks|, After(counts, picks))
    ensures Excess(After(counts, picks), t) <= Excess(other, t)
  {
    RunTotals(counts, picks);
    RunExcess(counts, picks, t);
    SumMonotone(Over(counts, t), Over(other, t));
    ExcessBound(other, t);
    ShiftDifference(counts, other, t);
  }

  /** In particular the largest load is the least possible: a cap that any way of giving
      out the volumes respects is respected by the reservations. */
  lemma LargestLoadIsLeast(counts: Counts, picks: seq<string>, other: Counts, cap: int)
    requires Roomy(counts, |picks|) && Run(counts, picks)
    requires Allocation(counts, |picks|, other)
    requires forall n :: n in other ==> other[n] <= cap
    ensures forall n :: n in After(counts, picks) ==> After(counts, picks)[n] <= cap
  {
    ReservationsAreOptimal(counts, picks, other, cap);
    ExcessZeroIff(other, cap);
    ExcessZeroIff(After(counts, picks), cap);
  }

  ghost predicate SpreadAtMost(m: Counts, s: int) {
    forall a, b :: a in m && b in m ==> m[a] - m[b] <= s
  }

  /** Loads do not drift apart: the spread stays within the initial one, or one. */
  lemma {:induction false} SpreadDoesNotGrow(counts: Counts, picks: seq<string>, s: int)
    requires Roomy(counts, |picks|) && Run(counts, picks)
    requires s >= 1 && SpreadAtMost(counts, s)
    ensures SpreadAtMost(After(counts, picks), s)
    decreases |picks|
  {
    if picks != [] {
      FirstPick(counts, picks);
      SpreadDoesNotGrow(Reserve(counts, picks[0]), picks[1..], s);
    }
  }

  // --- The order of goroutines and of map iteration does not matter ---

  ghost function Loads(m: Counts): multiset<int>
    decreases |m|
  {
    if m == map[] then multiset{}
    else
      var n :| n in m;
      multiset{m[n]} + Loads(m - {n})
  }

  lemma RemoveTwice(m: Counts, n: string, k: string)
    ensures m - {k} - {n} == m - {n} - {k}
  {
  }

  lemma {:induction false} LoadsRemove(m: Counts, n: string)
    requires n in m
    ensures Loads(m) == multiset{m[n]} + Loads(m - {n})
    decreases |m|
  {
    var k :| k in m && Loads(m) == multiset{m[k]} + Loads(m - {k});
    if k != n {
      assert Loads(m - {k}) == multiset{m[n]} + Loads(m - {k} - {n}) by { LoadsRemove(m - {k}, n); }
      assert Loads(m - {n}) == multiset{m[k]} + Loads(m - {n} - {k}) by { LoadsRemove(m - {n}, k); }
      RemoveTwice(m, n, k);
    }
  }

  lemma {:induction false} LoadsFrom(m: Counts, x: int) returns (n: string)
    requires x in Loads(m)
    ensures n in m && m[n] == x
    decreases |m|
  {
    n :| n in m && Loads(m) == multiset{m[n]} + Loads(m - {n});
    if m[n] != x {
      n := LoadsFrom(m - {n}, x);
    }
  }

  lemma LoadsUpdate(m: Counts, n: string, v: int)
    requires n in m
    ensures Loads(m[n := v]) == multiset{v} + Loads(m - {n})
  {
    var updated := m[n := v];
    LoadsRemove(updated, n);
    assert updated - {n} == m - {n};
  }

  lemma Cancel(x: int, a: multiset<int>, b: multiset<int>)
    requires multiset{x} + a == multiset{x} + b
    ensures a == b
  {
    assert a == multiset{x} + a - multiset{x};
    assert b == multiset{x} + b - multiset{x};
  }

  lemma LeastLoadsAgree(a: Counts, p: string, b: Counts, q: string)
    requires p in a && forall n :: n in a ==> a[p] <= a[n]
    requires q in b && forall n :: n in b ==> b[q] <= b[n]
    requires Loads(a) == Loads(b)
    ensures a[p] == b[q]
  {
    LoadsRemove(a, p);
    LoadsRemove(b, q);
    var n := LoadsFrom(b, a[p]);
    var k := LoadsFrom(a, b[q]);
  }

  lemma OthersAgree(a: Counts, p: string, b: Counts, q: string)
    requires p in a && q in b && a[p] == b[q] && Loads(a) == Loads(b)
    ensures Loads(a - {p}) == Loads(b - {q})
  {
    LoadsRemove(a, p);
    LoadsRemove(b, q);
    Cancel(a[p], Loads(a - {p}), Loads(b - {q}));
  }

  lemma StepKeepsLoadsEqual(a: Counts, p: string, b: Counts, q: string)
    requires p in a && forall n :: n in a ==> a[p] <= a[n]
    requires q in b && forall n :: n in b ==> b[q] <= b[n]
    requires Loads(a) == Loads(b)
    ensures Loads(Reserve(a, p)) == Loads(Reserve(b, q))
  {
    var x := a[p];
    assert x == b[q] by { LeastLoadsAgree(a, p, b, q); }
    OthersAgree(a, p, b, q);
    assert Loads(Reserve(a, p)) == multiset{x + 1} + Loads(a - {p}) by { LoadsUpdate(a, p, x + 1); }
    assert Loads(Reserve(b, q)) == multiset{x + 1} + Loads(b - {q}) by { LoadsUpdate(b, q, x + 1); }
  }

  /** Any two runs of the same length from the same loads end with the same loads, as
      multisets, whatever the orders in which nodes were visited and ties were broken. */
  lemma {:induction false} OrderDoesNotMatter(a: Counts, p: seq<string>, b: Counts, q: seq<string>)
    requires |p| == |q| && Roomy(a, |p|) && Roomy(b, |q|)
    requires Run(a, p) && Run(b, q)
    requires Loads(a) == Loads(b)
    ensures Loads(After(a, p)) == Loads(After(b, q))
    decreases |p|
  {
    if p != [] {
      FirstPick(a, p);
      FirstPick(b, q);
      StepKeepsLoadsEqual(a, p[0], b, q[0]);
      OrderDoesNotMatter(Reserve(a, p[0]), p[1..], Reserve(b, q[0]), q[1..]);
    }
  }

  // --- No counts at all ---

  /** If no node answered, every reservation chooses the empty name, and the map counts
      them under it. */
  lemma {:induction false} EmptyCounts(taken: nat, picks: seq<string>)
    requires taken + |picks| <= MAX_INT
    requires Run(if taken == 0 then map[] else map["" := taken], picks)
    ensures forall i :: 0 <= i < |picks| ==> picks[i] == ""
    decreases |picks|
  {
    if picks != [] {
      var counts: Counts := if taken == 0 then map[] else map["" := taken];
      assert taken > 0 ==> "" in counts && counts[""] < MAX_INT;
      assert Reserve(counts, "") == map["" := taken + 1];
      EmptyCounts(taken + 1, picks[1..]);
      forall i | 0 <= i < |picks| ensures picks[i] == "" {
        if i > 0 {
          assert picks[i] == picks[1..][i - 1];
        }
      }
    }
  }
}
