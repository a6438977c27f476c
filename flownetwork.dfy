/** The arithmetic of an augmenting step on a flow matrix (src/FordFulkerson/FordFulkerson.js,
    `calcMaxFlow`): which entries change, and which invariants of a flow survive. */
module FlowNetwork {

  /** A square matrix of integers, row by row (`flows[i][j]`, `capacities[i][j]`). */
  type Matrix = seq<seq<int>>

  /** One step of an incremental path: `{from, to}`. */
  datatype Edge = Edge(from: int, to: int)

  predicate IsSquare(m: Matrix, n: nat)
  {
    |m| == n && forall i :: 0 <= i < n ==> |m[i]| == n
  }

  predicate EdgesWithin(p: seq<Edge>, n: nat)
  {
    forall k :: 0 <= k < |p| ==> 0 <= p[k].from < n && 0 <= p[k].to < n
  }

  /** Consecutive edges share their meeting node. */
  predicate Linked(p: seq<Edge>)
  {
    forall k :: 0 <= k < |p| - 1 ==> p[k].to == p[k + 1].from
  }

  /** No directed edge occurs twice. */
  predicate NoRepeatedEdge(p: seq<Edge>)
  {
    forall a, b :: 0 <= a < b < |p| ==> p[a] != p[b]
  }

  /** The nodes a path visits: its start, then the head of every edge. */
  function Nodes(start: int, p: seq<Edge>): (r: seq<int>)
    ensures |r| == |p| + 1 && r[0] == start
    ensures forall k :: 0 <= k < |p| ==> r[k + 1] == p[k].to
  {
    [start] + seq(|p|, k requires 0 <= k < |p| => p[k].to)
  }

  /** A linked path from `start` to `end`; the empty path goes nowhere. */
  predicate PathFromTo(p: seq<Edge>, start: int, end: int)
  {
    Linked(p) &&
    (p == [] ==> start == end) &&
    (p != [] ==> p[0].from == start && p[|p| - 1].to == end)
  }

  /** No node is visited twice. */
  predicate Simple(start: int, p: seq<Edge>)
  {
    var ns := Nodes(start, p);
    forall a, b :: 0 <= a < b < |ns| ==> ns[a] != ns[b]
  }

  function Sum(s: seq<int>): int
  {
    if s == [] then 0 else s[0] + Sum(s[1..])
  }

  function Zero(n: nat): (m: Matrix)
    ensures IsSquare(m, n)
  {
    seq(n, i => seq(n, j => 0))
  }

  /** Adds `d` to entry (u, v). */
  function Bump(m: Matrix, u: int, v: int, d: int): (r: Matrix)
    requires IsSquare(m, |m|) && 0 <= u < |m| && 0 <= v < |m|
    ensures IsSquare(r, |m|)
  {
    m[u := m[u][v := m[u][v] + d]]
  }

  /** `++flows[from][to]; --flows[to][from];` */
  function Push(m: Matrix, e: Edge): (r: Matrix)
    requires IsSquare(m, |m|) && 0 <= e.from < |m| && 0 <= e.to < |m|
    ensures IsSquare(r, |m|)
  {
    Bump(Bump(m, e.from, e.to, 1), e.to, e.from, -1)
  }

  /** The flow after pushing one unit along every edge of `p`, first edge first. */
  function Augmented(m: Matrix, p: seq<Edge>): (r: Matrix)
    requires IsSquare(m, |m|) && EdgesWithin(p, |m|)
    ensures IsSquare(r, |m|)
    decreases |p|
  {
    if p == [] then m else Augmented(Push(m, p[0]), p[1..])
  }

  /** Number of occurrences of the directed edge `e` in `p`. */
  function Count(p: seq<Edge>, e: Edge): nat
  {
    if p == [] then 0 else (if p[0] == e then 1 else 0) + Count(p[1..], e)
  }

  /** Number of edges of `p` leaving `u`, and entering `u`. */
  function Out(p: seq<Edge>, u: int): nat
  {
    if p == [] then 0 else (if p[0].from == u then 1 else 0) + Out(p[1..], u)
  }

  function In(p: seq<Edge>, u: int): nat
  {
    if p == [] then 0 else (if p[0].to == u then 1 else 0) + In(p[1..], u)
  }

  /** `flows[i][j] == -flows[j][i]` for every pair. */
  predicate Antisymmetric(m: Matrix)
    requires IsSquare(m, |m|)
  {
    forall i, j :: 0 <= i < |m| && 0 <= j < |m| ==> m[i][j] == -m[j][i]
  }

  /** `flows[i][j] <= capacities[i][j]` for every pair. */
  predicate WithinCapacity(m: Matrix, c: Matrix)
    requires IsSquare(m, |m|) && IsSquare(c, |m|)
  {
    forall i, j :: 0 <= i < |m| && 0 <= j < |m| ==> m[i][j] <= c[i][j]
  }

  /** Every node other than the source and the sink has net flow zero: with antisymmetry,
      what enters it equals what leaves it. */
  predicate Conserves(m: Matrix, source: int, sink: int)
    requires IsSquare(m, |m|)
  {
    forall u :: 0 <= u < |m| && u != source && u != sink ==> Sum(m[u]) == 0
  }

  predicate FlowInvariants(m: Matrix, c: Matrix, source: int, sink: int)
  {
    IsSquare(m, |m|) && IsSquare(c, |m|) &&
    Antisymmetric(m) && WithinCapacity(m, c) && Conserves(m, source, sink)
  }

  lemma {:induction false} SumUpdate(s: seq<int>, k: int, d: int)
    requires 0 <= k < |s|
    ensures Sum(s[k := s[k] + d]) == Sum(s) + d
  {
    if k > 0 {
      assert s[k := s[k] + d][1..] == s[1..][k - 1 := s[k] + d];
      SumUpdate(s[1..], k - 1, d);
    } else {
      assert s[k := s[k] + d][1..] == s[1..];
    }
  }

  lemma {:induction false} SumMonotone(a: seq<int>, b: seq<int>)
    requires |a| == |b| && forall k :: 0 <= k < |a| ==> a[k] <= b[k]
    ensures Sum(a) <= Sum(b)
  {
    if a != [] {
      SumMonotone(a[1..], b[1..]);
    }
  }

  /** A row of non-negative entries that sums to zero is all zero. */
  lemma {:induction false} SumOfNonNegativeIsZero(a: seq<int>)
    requires forall k :: 0 <= k < |a| ==> a[k] >= 0
    requires Sum(a) == 0
    ensures forall k :: 0 <= k < |a| ==> a[k] == 0
  {
    if a != [] {
      SumNonNegative(a[1..]);
      SumOfNonNegativeIsZero(a[1..]);
      assert forall k :: 1 <= k < |a| ==> a[k] == a[1..][k - 1];
    }
  }

  lemma {:induction false} SumNonNegative(a: seq<int>)
    requires forall k :: 0 <= k < |a| ==> a[k] >= 0
    ensures Sum(a) >= 0
  {
    if a != [] {
      SumNonNegative(a[1..]);
    }
  }

  lemma {:induction false} SumZero(n: nat)
    ensures Sum(seq(n, j => 0)) == 0
  {
    if n > 0 {
      assert seq(n, j => 0)[1..] == seq(n - 1, j => 0);
      SumZero(n - 1);
    }
  }

  lemma {:induction false} SumConcat(a: seq<int>, b: seq<int>)
    ensures Sum(a + b) == Sum(a) + Sum(b)
  {
    if a != [] {
      assert (a + b)[1..] == a[1..] + b;
      SumConcat(a[1..], b);
    } else {
      assert a + b == b;
    }
  }

  /** A row that is zero everywhere but at `j` sums to its entry at `j`. */
  lemma {:induction false} SumSingle(s: seq<int>, j: int)
    requires 0 <= j < |s| && forall k :: 0 <= k < |s| && k != j ==> s[k] == 0
    ensures Sum(s) == s[j]
  {
    if j > 0 {
      SumSingle(s[1..], j - 1);
    } else {
      SumNonNegative(s[1..]);
      SumOfNonPositive(s[1..]);
    }
  }

  lemma {:induction false} SumOfNonPositive(a: seq<int>)
    requires forall k :: 0 <= k < |a| ==> a[k] <= 0
    ensures Sum(a) <= 0
  {
    if a != [] {
      SumOfNonPositive(a[1..]);
    }
  }

  /** A row that is zero everywhere but at `i` and `j` sums to those two entries. */
  lemma SumPair(s: seq<int>, i: int, j: int)
    requires 0 <= i < j < |s| && forall k :: 0 <= k < |s| && k != i && k != j ==> s[k] == 0
    ensures Sum(s) == s[i] + s[j]
  {
    assert s == s[..j] + s[j..];
    SumConcat(s[..j], s[j..]);
    SumSingle(s[..j], i);
    SumSingle(s[j..], 0);
  }

  /** One push moves one unit of net flow out of `from` and into `to`. */
  lemma PushRowSum(m: Matrix, e: Edge, u: int)
    requires IsSquare(m, |m|) && 0 <= e.from < |m| && 0 <= e.to < |m| && 0 <= u < |m|
    ensures Sum(Push(m, e)[u]) ==
            Sum(m[u]) + (if u == e.from then 1 else 0) - (if u == e.to then 1 else 0)
  {
    var m1 := Bump(m, e.from, e.to, 1);
    if u == e.from { SumUpdate(m[u], e.to, 1); }
    if u == e.to { SumUpdate(m1[u], e.from, -1); }
  }

  /** Entry (i, j) of the augmented matrix: plus one per occurrence of the edge (i, j),
      minus one per occurrence of the reverse edge (j, i). */
  lemma {:induction false} AugmentedEntry(m: Matrix, p: seq<Edge>, i: int, j: int)
    requires IsSquare(m, |m|) && EdgesWithin(p, |m|)
    requires 0 <= i < |m| && 0 <= j < |m|
    ensures Augmented(m, p)[i][j] == m[i][j] + Count(p, Edge(i, j)) - Count(p, Edge(j, i))
    decreases |p|
  {
    if p != [] {
      AugmentedEntry(Push(m, p[0]), p[1..], i, j);
    }
  }

  /** The net flow out of `u` changes by the number of path edges leaving `u` minus the
      number entering it. */
  lemma {:induction false} AugmentedRowSum(m: Matrix, p: seq<Edge>, u: int)
    requires IsSquare(m, |m|) && EdgesWithin(p, |m|) && 0 <= u < |m|
    ensures Sum(Augmented(m, p)[u]) == Sum(m[u]) + Out(p, u) - In(p, u)
    decreases |p|
  {
    if p != [] {
      PushRowSum(m, p[0], u);
      AugmentedRowSum(Push(m, p[0]), p[1..], u);
    }
  }

  /** Along a linked walk every node is entered as often as it is left, except the first
      node (left once more) and the last (entered once more). */
  lemma {:induction false} WalkBalance(p: seq<Edge>, u: int)
    requires Linked(p) && p != []
    ensures Out(p, u) - In(p, u) ==
            (if u == p[0].from then 1 else 0) - (if u == p[|p| - 1].to then 1 else 0)
    decreases |p|
  {
    if |p| > 1 {
      WalkBalance(p[1..], u);
    }
  }

  lemma {:induction false} CountAtMostOne(p: seq<Edge>, e: Edge)
    requires NoRepeatedEdge(p)
    ensures Count(p, e) <= 1
    ensures Count(p, e) == 1 ==> e in p
    decreases |p|
  {
    if p != [] {
      CountAtMostOne(p[1..], e);
      if p[0] == e {
        CountZero(p[1..], e);
      }
    }
  }

  lemma {:induction false} CountZero(p: seq<Edge>, e: Edge)
    requires e !in p
    ensures Count(p, e) == 0
    decreases |p|
  {
    if p != [] {
      CountZero(p[1..], e);
    }
  }

  /** A linked path that visits no node twice uses no edge twice. */
  lemma SimpleHasNoRepeatedEdge(p: seq<Edge>, start: int, end: int)
    requires PathFromTo(p, start, end) && Simple(start, p)
    ensures NoRepeatedEdge(p)
  {
    var ns := Nodes(start, p);
    assert forall k :: 0 <= k < |p| ==> p[k].from == ns[k] by {
      forall k | 0 <= k < |p| ensures p[k].from == ns[k] {
        if k > 0 {
          assert p[k - 1].to == p[k].from;
        }
      }
    }
  }

  /** Putting the edge (s, start) in front of a simple path from `start` gives a linked path
      from `s` that still uses no edge twice, even when `s` lies on the path. */
  lemma PrependToSimple(s: int, start: int, end: int, p: seq<Edge>)
    requires PathFromTo(p, start, end) && Simple(start, p) && p != []
    ensures PathFromTo([Edge(s, start)] + p, s, end)
    ensures NoRepeatedEdge([Edge(s, start)] + p)
  {
    SimpleHasNoRepeatedEdge(p, start, end);
    var ns := Nodes(start, p);
    forall k | 0 <= k < |p|
      ensures p[k] != Edge(s, start)
    {
      assert p[k].to == ns[k + 1] && ns[0] == start;
    }
    ConsNoRepeat(Edge(s, start), p);
  }

  /** An edge that does not occur in a path without repeated edges may head it. */
  lemma ConsNoRepeat(x: Edge, p: seq<Edge>)
    requires NoRepeatedEdge(p) && forall k :: 0 <= k < |p| ==> p[k] != x
    ensures NoRepeatedEdge([x] + p)
  {
    var q := [x] + p;
    forall a, b | 0 <= a < b < |q|
      ensures q[a] != q[b]
    {
      assert q[b] == p[b - 1];
      if a > 0 {
        assert q[a] == p[a - 1];
      }
    }
  }

  /** Augmenting along `p` and then along one more edge is augmenting along the longer path. */
  lemma {:induction false} AugmentedSnoc(m: Matrix, p: seq<Edge>, e: Edge)
    requires IsSquare(m, |m|) && EdgesWithin(p, |m|) && 0 <= e.from < |m| && 0 <= e.to < |m|
    ensures EdgesWithin(p + [e], |m|)
    ensures Augmented(m, p + [e]) == Push(Augmented(m, p), e)
    decreases |p|
  {
    assert forall k :: 0 <= k < |p| ==> (p + [e])[k] == p[k];
    if p != [] {
      assert (p + [e])[1..] == p[1..] + [e];
      AugmentedSnoc(Push(m, p[0]), p[1..], e);
    }
  }

  /** Entry-wise effect of augmenting along a path without repeated edges whose every edge
      has residual capacity: antisymmetry and the capacity bound survive. */
  lemma AugmentEntryBounds(m: Matrix, c: Matrix, p: seq<Edge>, i: int, j: int)
    requires IsSquare(m, |m|) && IsSquare(c, |m|) && Antisymmetric(m) && WithinCapacity(m, c)
    requires EdgesWithin(p, |m|) && NoRepeatedEdge(p)
    requires forall k :: 0 <= k < |p| ==> m[p[k].from][p[k].to] < c[p[k].from][p[k].to]
    requires 0 <= i < |m| && 0 <= j < |m|
    ensures Augmented(m, p)[i][j] == -Augmented(m, p)[j][i]
    ensures Augmented(m, p)[i][j] <= c[i][j]
  {
    AugmentedEntry(m, p, i, j);
    AugmentedEntry(m, p, j, i);
    CountAtMostOne(p, Edge(i, j));
    if Count(p, Edge(i, j)) == 1 {
      var k :| 0 <= k < |p| && p[k] == Edge(i, j);
      assert m[i][j] < c[i][j];
    }
  }

  /** Augmenting along a linked walk from `source` to `sink` changes the net flow of no
      other node, and raises that of the source by one. */
  lemma AugmentRowSums(m: Matrix, p: seq<Edge>, source: int, sink: int, u: int)
    requires IsSquare(m, |m|) && EdgesWithin(p, |m|) && Linked(p) && p != []
    requires p[0].from == source && p[|p| - 1].to == sink && source != sink
    requires 0 <= u < |m|
    ensures Sum(Augmented(m, p)[u]) ==
            Sum(m[u]) + (if u == source then 1 else 0) - (if u == sink then 1 else 0)
  {
    AugmentedRowSum(m, p, u);
    WalkBalance(p, u);
  }

  /** Augmenting along a path without repeated edges, each of which has residual
      capacity, keeps antisymmetry and the capacity bound. */
  lemma AugmentKeepsBounds(m: Matrix, c: Matrix, p: seq<Edge>)
    requires IsSquare(m, |m|) && IsSquare(c, |m|) && Antisymmetric(m) && WithinCapacity(m, c)
    requires EdgesWithin(p, |m|) && NoRepeatedEdge(p)
    requires forall k :: 0 <= k < |p| ==> m[p[k].from][p[k].to] < c[p[k].from][p[k].to]
    ensures IsSquare(Augmented(m, p), |m|)
    ensures Antisymmetric(Augmented(m, p))
    ensures WithinCapacity(Augmented(m, p), c)
  {
    var r := Augmented(m, p);
    assert IsSquare(r, |m|);
    forall i, j | 0 <= i < |m| && 0 <= j < |m|
      ensures r[i][j] == -r[j][i]
    {
      AugmentEntryBounds(m, c, p, i, j);
    }
    forall i, j | 0 <= i < |m| && 0 <= j < |m|
      ensures r[i][j] <= c[i][j]
    {
      AugmentEntryBounds(m, c, p, i, j);
    }
  }

  /** Augmenting along a linked source-to-sink walk keeps every other node balanced. */
  lemma AugmentConserves(m: Matrix, p: seq<Edge>, source: int, sink: int)
    requires IsSquare(m, |m|) && Conserves(m, source, sink)
    requires EdgesWithin(p, |m|) && Linked(p) && p != []
    requires p[0].from == source && p[|p| - 1].to == sink && source != sink
    ensures Conserves(Augmented(m, p), source, sink)
  {
    forall u | 0 <= u < |m| && u != source && u != sink
      ensures Sum(Augmented(m, p)[u]) == 0
    {
      AugmentRowSums(m, p, source, sink, u);
    }
  }

  /** Pushing one unit along a linked source-to-sink walk without repeated edges, each of
      which has residual capacity, keeps the three flow invariants and raises the net
      flow out of the source by exactly one. */
  lemma AugmentPreservesFlow(m: Matrix, c: Matrix, p: seq<Edge>, source: int, sink: int)
    requires FlowInvariants(m, c, source, sink)
    requires EdgesWithin(p, |m|) && Linked(p) && NoRepeatedEdge(p) && p != []
    requires p[0].from == source && p[|p| - 1].to == sink && source != sink
    requires 0 <= source < |m|
    requires forall k :: 0 <= k < |p| ==> m[p[k].from][p[k].to] < c[p[k].from][p[k].to]
    ensures FlowInvariants(Augmented(m, p), c, source, sink)
    ensures Sum(Augmented(m, p)[source]) == Sum(m[source]) + 1
  {
    AugmentKeepsBounds(m, c, p);
    AugmentConserves(m, p, source, sink);
    AugmentRowSums(m, p, source, sink, source);
  }

  /** The net flow out of a node never exceeds the total capacity of its out-edges. */
  lemma OutflowBounded(m: Matrix, c: Matrix, u: int)
    requires IsSquare(m, |m|) && IsSquare(c, |m|) && WithinCapacity(m, c) && 0 <= u < |m|
    ensures Sum(m[u]) <= Sum(c[u])
  {
    SumMonotone(m[u], c[u]);
  }

  /** The all-zero flow satisfies the invariants when no capacity is negative. */
  lemma ZeroFlowInvariants(c: Matrix, source: int, sink: int)
    requires IsSquare(c, |c|)
    requires forall i, j :: 0 <= i < |c| && 0 <= j < |c| ==> c[i][j] >= 0
    ensures FlowInvariants(Zero(|c|), c, source, sink)
  {
    SumZero(|c|);
  }

  /** A node whose column of capacities is all zero (nothing may enter it) and that is
      neither source nor sink carries no flow at all. */
  lemma ClosedNodeCarriesNoFlow(m: Matrix, c: Matrix, source: int, sink: int, f: int)
    requires FlowInvariants(m, c, source, sink)
    requires 0 <= f < |m| && f != source && f != sink
    requires forall i :: 0 <= i < |m| ==> c[i][f] == 0
    ensures forall j :: 0 <= j < |m| ==> m[f][j] == 0
  {
    assert forall j :: 0 <= j < |m| ==> m[f][j] == -m[j][f] && m[j][f] <= c[j][f];
    SumOfNonNegativeIsZero(m[f]);
  }
}
