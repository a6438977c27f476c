/** The max-flow solver of the interview matcher (src/FordFulkerson/FordFulkerson.js): a
    breadth-first search for a path with residual capacity, restricted by node type, and
    a loop that pushes one unit of flow along each path it finds. */
module FordFulkerson {
  import opened Results
  import opened FlowNetwork
  import Ordering
  import opened SearchNodes

  /** `graph_info`: the four sets of node ids by type, in insertion order. */
  datatype GraphInfo = GraphInfo(
    interviewers: seq<int>,
    slotFilters: seq<int>,
    slots: seq<int>,
    candidates: seq<int>)

  predicate Ascending(s: seq<int>)
  {
    forall i, j :: 0 <= i < j < |s| ==> s[i] < s[j]
  }

  /** Every id is an inner node: neither the source 0 nor the sink n - 1. */
  predicate Inner(s: seq<int>, n: int)
  {
    Within(s, 1, n - 1)
  }

  predicate Within(s: seq<int>, lo: int, hi: int)
  {
    forall k :: 0 <= k < |s| ==> lo <= s[k] < hi
  }

  /** What the search relies on in `graph_info` for an n-node matrix: each set lists its ids
      once, in ascending order (the order the matcher adds them in), every id is an inner
      node, and each slot-filter f has its slot f + |slot_filters| inside the matrix. */
  predicate InfoFits(info: GraphInfo, n: int)
  {
    Ascending(info.interviewers) && Ascending(info.slotFilters) &&
    Ascending(info.slots) && Ascending(info.candidates) &&
    Inner(info.interviewers, n) && Inner(info.slotFilters, n) &&
    Inner(info.slots, n) && Inner(info.candidates, n) &&
    forall f :: f in info.slotFilters ==> f + |info.slotFilters| < n
  }

  /** The branch of the search that expands a node, tried in this order. */
  datatype Kind = SourceNode | InterviewerNode | SlotFilterNode | SlotNode | OtherNode

  /** The ids n - 1, n - 2, ..., 0: the order of the `for (let i = n - 1; i >= 0; --i)` scans. */
  function Descending(n: nat): (r: seq<int>)
    ensures |r| == n && forall v :: v in r <==> 0 <= v < n
  {
    var r := seq(n, k => n - 1 - k);
    forall v | 0 <= v < n
      ensures v in r
    {
      assert r[n - 1 - v] == v;
    }
    r
  }

  /** The ids 0 .. n - 1. */
  ghost function Range(n: nat): (r: set<int>)
    ensures forall v :: v in r <==> 0 <= v < n
  {
    if n == 0 then {} else Range(n - 1) + {n - 1}
  }

  function Reverse(s: seq<int>): (r: seq<int>)
    ensures |r| == |s| && forall v :: v in r <==> v in s
  {
    if s == [] then [] else Reverse(s[1..]) + [s[0]]
  }

  lemma {:induction false} ReverseSnoc(s: seq<int>, x: int)
    ensures Reverse(s + [x]) == [x] + Reverse(s)
  {
    if s != [] {
      assert (s + [x])[1..] == s[1..] + [x];
      ReverseSnoc(s[1..], x);
    }
  }

  /** buildIncrementalPath: one edge per parent link, from the root down to `end`. */
  function BuildIncrementalPath(end: SearchNode): (p: seq<Edge>)
    ensures |p| == |Ids(end)| - 1
    ensures forall k :: 0 <= k < |p| ==> p[k] == Edge(Ids(end)[k], Ids(end)[k + 1])
  {
    match end.prev
    case None => []
    case Some(prev) => BuildIncrementalPath(prev) + [Edge(prev.id, end.id)]
  }

  /** The path starts at the root, ends at `end`, each edge's head is the next edge's tail,
      and it visits exactly the nodes of the parent chain. */
  lemma IncrementalPathShape(end: SearchNode)
    ensures PathFromTo(BuildIncrementalPath(end), Ids(end)[0], end.id)
    ensures Nodes(Ids(end)[0], BuildIncrementalPath(end)) == Ids(end)
  {
    ChainPath(Ids(end), BuildIncrementalPath(end));
  }

  /** The edges between consecutive nodes of a chain form a path along exactly that chain. */
  lemma ChainPath(ids: seq<int>, p: seq<Edge>)
    requires |ids| >= 1 && |p| == |ids| - 1
    requires forall k :: 0 <= k < |p| ==> p[k] == Edge(ids[k], ids[k + 1])
    ensures PathFromTo(p, ids[0], ids[|ids| - 1])
    ensures Nodes(ids[0], p) == ids
  {
    var ns := Nodes(ids[0], p);
    forall k | 0 <= k < |ids|
      ensures ns[k] == ids[k]
    {
      if k > 0 {
        assert p[k - 1] == Edge(ids[k - 1], ids[k]);
      }
    }
    if p != [] {
      assert p[|p| - 1] == Edge(ids[|p| - 1], ids[|p|]);
    }
  }

  /** The edges between consecutive nodes of a chain inside the matrix lie inside it. */
  lemma ChainEdges(ids: seq<int>, p: seq<Edge>, n: nat)
    requires Within(ids, 0, n) && |p| == |ids| - 1
    requires forall k :: 0 <= k < |p| ==> p[k] == Edge(ids[k], ids[k + 1])
    ensures EdgesWithin(p, n)
  {
    forall k | 0 <= k < |p|
      ensures 0 <= p[k].from < n && 0 <= p[k].to < n
    {
      assert p[k] == Edge(ids[k], ids[k + 1]);
      assert 0 <= ids[k] < n && 0 <= ids[k + 1] < n;
    }
  }

  lemma MemberWithin(s: seq<int>, v: int, lo: int, hi: int)
    requires Within(s, lo, hi) && v in s
    ensures lo <= v < hi
  {
    var k :| 0 <= k < |s| && s[k] == v;
  }

  lemma WithinPrefix(s: seq<int>, k: int, lo: int, hi: int)
    requires Within(s, lo, hi) && 0 <= k <= |s|
    ensures Within(s[..k], lo, hi)
  {
  }

  /** A chain whose nodes before the last are distinct members of `visited`, and whose last
      node is not in `visited`, has no repeated node. */
  lemma ChainDistinct(ids: seq<int>, visited: set<int>)
    requires |ids| >= 1 && ids[|ids| - 1] !in visited
    requires forall k :: 0 <= k < |ids| - 1 ==> ids[k] in visited
    requires forall a, b :: 0 <= a < b < |ids| - 1 ==> ids[a] != ids[b]
    ensures forall a, b :: 0 <= a < b < |ids| ==> ids[a] != ids[b]
  {
  }

  /** The edges along a chain inside the matrix whose last node is outside `visited` and
      whose earlier nodes are distinct members of it form a simple path. */
  lemma SimpleChain(ids: seq<int>, p: seq<Edge>, visited: set<int>, n: nat)
    requires |ids| >= 1 && Within(ids, 0, n) && |p| == |ids| - 1
    requires forall k :: 0 <= k < |p| ==> p[k] == Edge(ids[k], ids[k + 1])
    requires ids[|ids| - 1] !in visited
    requires forall k :: 0 <= k < |ids| - 1 ==> ids[k] in visited
    requires forall a, b :: 0 <= a < b < |ids| - 1 ==> ids[a] != ids[b]
    ensures EdgesWithin(p, n) && PathFromTo(p, ids[0], ids[|ids| - 1])
    ensures Simple(ids[0], p)
  {
    ChainPath(ids, p);
    ChainEdges(ids, p, n);
    ChainDistinct(ids, visited);
  }

  /** Entries listed against ascending ids: their ids are those ids, distinct, and the
      count read for each id is the entry's own. */
  lemma EntriesCount(e: seq<Ordering.Entry>, ids: seq<int>)
    requires |e| == |ids| && Ascending(ids)
    requires forall k :: 0 <= k < |ids| ==> e[k].id == ids[k]
    ensures Ordering.Ids(e) == ids && Ordering.DistinctIds(e)
    ensures forall k :: 0 <= k < |e| ==> Ordering.CountOf(e, ids[k]) == e[k].count
  {
    forall k | 0 <= k < |e|
      ensures Ordering.CountOf(e, ids[k]) == e[k].count
    {
      assert e[k] in e;
      Ordering.CountOfMember(e, e[k]);
    }
  }

  /** The matrix an `array2` holds, row by row. */
  function Grid(a: array2<int>): (m: Matrix)
    reads a
    ensures IsSquare(m, a.Length0) || a.Length0 != a.Length1
    ensures |m| == a.Length0
    ensures forall i :: 0 <= i < a.Length0 ==> |m[i]| == a.Length1
    ensures forall i, j :: 0 <= i < a.Length0 && 0 <= j < a.Length1 ==> m[i][j] == a[i, j]
  {
    seq(a.Length0, i requires 0 <= i < a.Length0 reads a =>
      seq(a.Length1, j requires 0 <= j < a.Length1 reads a => a[i, j]))
  }

  /** A freshly zeroed square array holds the zero matrix. */
  lemma ZeroGrid(a: array2<int>)
    requires a.Length0 == a.Length1
    requires forall i, j :: 0 <= i < a.Length0 && 0 <= j < a.Length1 ==> a[i, j] == 0
    ensures Grid(a) == Zero(a.Length0)
  {
    forall i | 0 <= i < a.Length0
      ensures Grid(a)[i] == Zero(a.Length0)[i]
    {
    }
  }

  class FordFulkerson {
    const capacities: array2<int>
    const info: GraphInfo
    const flows: array2<int>
    const source: int
    const sink: int

    /** What the constructor establishes: square matrices of one size, kept apart, with the
        source at 0 and the sink at the last index. */
    predicate Valid()
    {
      capacities.Length0 == capacities.Length1 == flows.Length0 == flows.Length1 &&
      flows != capacities && source == 0 && sink == capacities.Length0 - 1
    }

    function Size(): nat
    {
      capacities.Length0
    }

    /** Valid, and `graph_info` fits the matrix, as the search needs. */
    predicate Ready()
    {
      Valid() && InfoFits(info, Size())
    }

    /** Allocates an all-zero flow matrix of the capacities' size. */
    constructor (capacities: array2<int>, info: GraphInfo)
      requires capacities.Length0 == capacities.Length1
      ensures Valid() && this.capacities == capacities && this.info == info
      ensures fresh(flows)
      ensures forall i, j :: 0 <= i < flows.Length0 && 0 <= j < flows.Length1 ==> flows[i, j] == 0
    {
      this.capacities := capacities;
      this.info := info;
      flows := new int[capacities.Length0, capacities.Length0]((i, j) => 0);
      source := 0;
      sink := capacities.Length0 - 1;
    }

    /** `new FordFulkerson(capacities, graph_info)` with its argument checks: a missing
        matrix is reported first, then missing graph information. */
    static method Create(capacities: Option<array2<int>>, info: Option<GraphInfo>)
      returns (r: Result<FordFulkerson>)
      requires capacities.Some? ==> capacities.value.Length0 == capacities.value.Length1
      ensures capacities.None? ==> r == Err(Plain("Missing field 'capacities'"))
      ensures capacities.Some? && info.None? ==> r == Err(Plain("Missing field 'graph_info'"))
      ensures capacities.Some? && info.Some? ==>
                r.Ok? && fresh(r.value) && fresh(r.value.flows) && r.value.Valid() &&
                r.value.capacities == capacities.value && r.value.info == info.value &&
                forall i, j :: 0 <= i < r.value.Size() && 0 <= j < r.value.Size() ==>
                  r.value.flows[i, j] == 0
    {
      if capacities.None? {
        return Err(Plain("Missing field 'capacities'"));
      }
      if info.None? {
        return Err(Plain("Missing field 'graph_info'"));
      }
      var ff := new FordFulkerson(capacities.value, info.value);
      return Ok(ff);
    }

    /** `capacities[u][v] - flows[u][v]`. */
    function Residual(u: int, v: int): int
      requires Valid() && 0 <= u < Size() && 0 <= v < Size()
      reads capacities, flows
    {
      capacities[u, v] - flows[u, v]
    }

    /** `[id, residual from the source]` for each interviewer id, in order. */
    function WorkEntries(ids: seq<int>): (r: seq<Ordering.Entry>)
      requires Valid() && Within(ids, 0, Size())
      reads capacities, flows
      ensures |r| == |ids|
      ensures forall k :: 0 <= k < |ids| ==> r[k] == Ordering.Entry(ids[k], Residual(0, ids[k]))
    {
      if ids == [] then [] else [Ordering.Entry(ids[0], Residual(0, ids[0]))] + WorkEntries(ids[1..])
    }

    /** What is left to fill at slot-filter f: its residual towards the sink plus its
        residual towards its slot f + |slot_filters|. */
    function SlotRoom(f: int): int
      requires Ready() && f in info.slotFilters
      reads capacities, flows
    {
      Residual(f, sink) + Residual(f, f + |info.slotFilters|)
    }

    function RoomEntries(ids: seq<int>): (r: seq<Ordering.Entry>)
      requires Ready() && forall k :: 0 <= k < |ids| ==> ids[k] in info.slotFilters
      reads capacities, flows
      ensures |r| == |ids|
      ensures forall k :: 0 <= k < |ids| ==> r[k] == Ordering.Entry(ids[k], SlotRoom(ids[k]))
    {
      if ids == [] then [] else [Ordering.Entry(ids[0], SlotRoom(ids[0]))] + RoomEntries(ids[1..])
    }

    lemma WorkEntriesCount(ids: seq<int>)
      requires Valid() && Within(ids, 0, Size()) && Ascending(ids)
      ensures Ordering.Ids(WorkEntries(ids)) == ids && Ordering.DistinctIds(WorkEntries(ids))
      ensures forall v :: v in ids ==> Ordering.CountOf(WorkEntries(ids), v) == Residual(0, v)
    {
      var e := WorkEntries(ids);
      EntriesCount(e, ids);
      forall v | v in ids
        ensures Ordering.CountOf(e, v) == Residual(0, v)
      {
        var k :| 0 <= k < |ids| && ids[k] == v;
      }
    }

    lemma RoomEntriesCount(ids: seq<int>)
      requires Ready() && (forall k :: 0 <= k < |ids| ==> ids[k] in info.slotFilters) && Ascending(ids)
      ensures Ordering.Ids(RoomEntries(ids)) == ids && Ordering.DistinctIds(RoomEntries(ids))
      ensures forall v :: v in ids ==> Ordering.CountOf(RoomEntries(ids), v) == SlotRoom(v)
    {
      var e := RoomEntries(ids);
      EntriesCount(e, ids);
      forall v | v in ids
        ensures Ordering.CountOf(e, v) == SlotRoom(v)
      {
        var k :| 0 <= k < |ids| && ids[k] == v;
      }
    }

    /** sortInterviewersByAscendingWork: the interviewers the source can still send flow
        to, most remaining capacity first, ties by ascending id. */
    function SortInterviewersByAscendingWork(): (r: seq<int>)
      requires Ready()
      reads capacities, flows
      ensures forall v :: v in r <==> v in info.interviewers && Residual(0, v) > 0
      ensures forall k :: 0 <= k < |r| ==> r[k] in info.interviewers
      ensures forall i, j :: 0 <= i < j < |r| ==> r[i] != r[j]
      ensures forall i, j :: 0 <= i < j < |r| ==>
                Residual(0, r[i]) > Residual(0, r[j]) ||
                (Residual(0, r[i]) == Residual(0, r[j]) && r[i] < r[j])
    {
      WorkEntriesCount(info.interviewers);
      Ordering.Ranked(WorkEntries(info.interviewers), true)
    }

    /** sortSlotsByDescendingNumInterviewers: the slot-filters with room left, least room
        first, ties by ascending id. */
    function SortSlotsByDescendingNumInterviewers(): (r: seq<int>)
      requires Ready()
      reads capacities, flows
      ensures forall v :: v in r <==> v in info.slotFilters && SlotRoom(v) > 0
      ensures forall k :: 0 <= k < |r| ==> r[k] in info.slotFilters
      ensures forall i, j :: 0 <= i < j < |r| ==> r[i] != r[j]
      ensures forall i, j :: 0 <= i < j < |r| ==>
                SlotRoom(r[i]) < SlotRoom(r[j]) ||
                (SlotRoom(r[i]) == SlotRoom(r[j]) && r[i] < r[j])
    {
      RoomEntriesCount(info.slotFilters);
      Ordering.Ranked(RoomEntries(info.slotFilters), false)
    }

    /** A candidate already sends its one unit to the sink. */
    predicate HasSlot(c: int)
      requires Valid() && 0 <= c < Size()
      reads flows
    {
      flows[c, sink] == 1
    }

    /** The candidates in `cs`, in order, that hold a slot, and those that do not. */
    function Assigned(cs: seq<int>): (r: seq<int>)
      requires Valid() && Within(cs, 0, Size())
      reads flows
      ensures forall v :: v in r <==> v in cs && HasSlot(v)
    {
      if cs == [] then []
      else (if HasSlot(cs[0]) then [cs[0]] else []) + Assigned(cs[1..])
    }

    function Unassigned(cs: seq<int>): (r: seq<int>)
      requires Valid() && Within(cs, 0, Size())
      reads flows
      ensures forall v :: v in r <==> v in cs && !HasSlot(v)
    {
      if cs == [] then []
      else (if HasSlot(cs[0]) then [] else [cs[0]]) + Unassigned(cs[1..])
    }

    /** The `forEach` of sortCandidatesByAscendingAssignedSlots over the candidates still to
        visit, `acc` being the list built so far: a candidate with a slot is pushed at the
        back, one without is put at the front. */
    function Arrange(cs: seq<int>, acc: seq<int>): seq<int>
      requires Valid() && Within(cs, 0, Size())
      reads flows
    {
      if cs == [] then acc
      else Arrange(cs[1..], if HasSlot(cs[0]) then acc + [cs[0]] else [cs[0]] + acc)
    }

    /** Arranging the rest after some candidates have been arranged already. */
    lemma {:induction false} ArrangeSplits(cs: seq<int>, u: seq<int>, a: seq<int>)
      requires Valid() && Within(cs, 0, Size())
      ensures Arrange(cs, Reverse(u) + a) == Reverse(u + Unassigned(cs)) + a + Assigned(cs)
      decreases |cs|, 1
    {
      if cs == [] {
        assert u + [] == u;
      } else if HasSlot(cs[0]) {
        ArrangeSlotted(cs, u, a);
      } else {
        ArrangeUnslotted(cs, u, a);
      }
    }

    /** The step of `ArrangeSplits` for a candidate holding a slot: pushed at the back. */
    lemma {:induction false} ArrangeSlotted(cs: seq<int>, u: seq<int>, a: seq<int>)
      requires Valid() && Within(cs, 0, Size()) && cs != [] && HasSlot(cs[0])
      ensures Arrange(cs, Reverse(u) + a) == Reverse(u + Unassigned(cs)) + a + Assigned(cs)
      decreases |cs|, 0
    {
      var c := cs[0];
      assert Unassigned(cs) == Unassigned(cs[1..]);
      assert Assigned(cs) == [c] + Assigned(cs[1..]);
      var rest := Reverse(u + Unassigned(cs[1..]));
      calc {
        Arrange(cs, Reverse(u) + a);
        Arrange(cs[1..], Reverse(u) + a + [c]);
        { assert Reverse(u) + a + [c] == Reverse(u) + (a + [c]); }
        Arrange(cs[1..], Reverse(u) + (a + [c]));
        { ArrangeSplits(cs[1..], u, a + [c]); }
        rest + (a + [c]) + Assigned(cs[1..]);
        { assert rest + (a + [c]) + Assigned(cs[1..]) == rest + a + ([c] + Assigned(cs[1..])); }
        Reverse(u + Unassigned(cs)) + a + Assigned(cs);
      }
    }

    /** The step of `ArrangeSplits` for a candidate without a slot: put at the front. */
    lemma {:induction false} ArrangeUnslotted(cs: seq<int>, u: seq<int>, a: seq<int>)
      requires Valid() && Within(cs, 0, Size()) && cs != [] && !HasSlot(cs[0])
      ensures Arrange(cs, Reverse(u) + a) == Reverse(u + Unassigned(cs)) + a + Assigned(cs)
      decreases |cs|, 0
    {
      var c := cs[0];
      assert Unassigned(cs) == [c] + Unassigned(cs[1..]);
      assert u + [c] + Unassigned(cs[1..]) == u + Unassigned(cs);
      calc {
        Arrange(cs, Reverse(u) + a);
        Arrange(cs[1..], [c] + (Reverse(u) + a));
        { ReverseSnoc(u, c);
          assert [c] + (Reverse(u) + a) == [c] + Reverse(u) + a; }
        Arrange(cs[1..], Reverse(u + [c]) + a);
        { ArrangeSplits(cs[1..], u + [c], a); }
        Reverse(u + [c] + Unassigned(cs[1..])) + a + Assigned(cs[1..]);
      }
    }

    /** sortCandidatesByAscendingAssignedSlots: the candidates without a slot, in reverse
        order, then those with one, in order. */
    function SortCandidatesByAscendingAssignedSlots(): (r: seq<int>)
      requires Ready()
      reads flows
      ensures r == Reverse(Unassigned(info.candidates)) + Assigned(info.candidates)
      ensures forall v :: v in r <==> v in info.candidates
    {
      ArrangeAll(info.candidates);
      Arrange(info.candidates, [])
    }

    /** Arranging from an empty list: the unassigned candidates reversed, then the
        assigned ones; so every candidate appears, and nothing else. */
    lemma ArrangeAll(cs: seq<int>)
      requires Valid() && Within(cs, 0, Size())
      ensures Arrange(cs, []) == Reverse(Unassigned(cs)) + Assigned(cs)
      ensures forall v :: v in Arrange(cs, []) <==> v in cs
    {
      var u, a := Unassigned(cs), Assigned(cs);
      ArrangeSplits(cs, [], []);
      calc {
        Arrange(cs, []);
        { assert Reverse([]) + [] == []; }
        Arrange(cs, Reverse([]) + []);
        Reverse([] + u) + [] + a;
        { assert [] + u == u; assert Reverse(u) + [] == Reverse(u); }
        Reverse(u) + a;
      }
      forall v
        ensures v in Reverse(u) + a <==> v in cs
      {
        assert v in Reverse(u) + a <==> v in Reverse(u) || v in a;
      }
    }

    /** The branch of the search that expands `u`, as the `if` chain tests it. */
    function KindOf(u: int): Kind
    {
      if u == source then SourceNode
      else if u in info.interviewers then InterviewerNode
      else if u in info.slotFilters then SlotFilterNode
      else if u in info.slots then SlotNode
      else OtherNode
    }

    /** The order in which the search considers the neighbours of `u`. */
    function Order(u: int): (r: seq<int>)
      requires Ready() && 0 <= u < Size()
      reads capacities, flows
      ensures Within(r, 0, Size())
    {
      match KindOf(u)
      case SourceNode => SortInterviewersByAscendingWork()
      case InterviewerNode => SortSlotsByDescendingNumInterviewers()
      case SlotFilterNode => Descending(Size())
      case SlotNode =>
        var c := SortCandidatesByAscendingAssignedSlots();
        assert forall k :: 0 <= k < |c| ==> c[k] in info.candidates;
        c + info.slotFilters
      case OtherNode => Descending(Size())
    }

    /** Whether the search queues `v` from `u`: positive residual, except that a
        slot-filter whose slot edge carries no flow may not use its sink edge. */
    predicate Admit(u: int, v: int)
      requires Ready() && 0 <= u < Size() && 0 <= v < Size()
      reads capacities, flows
    {
      Residual(u, v) > 0 &&
      !(KindOf(u) == SlotFilterNode && v == sink && flows[u, u + |info.slotFilters|] == 0)
    }

    /** The residual step relation the search explores, stated per node type. */
    ghost predicate Admissible(u: int, v: int)
      requires Ready() && 0 <= u < Size()
      reads capacities, flows
    {
      0 <= v < Size() && Residual(u, v) > 0 &&
      match KindOf(u)
      case SourceNode => v in info.interviewers
      case InterviewerNode => v in info.slotFilters && SlotRoom(v) > 0
      case SlotFilterNode => v == sink ==> flows[u, u + |info.slotFilters|] != 0
      case SlotNode => v in info.candidates || v in info.slotFilters
      case OtherNode => true
    }

    /** The neighbours the search queues from `u` are exactly the admissible steps. */
    lemma OrderAdmitExact(u: int, v: int)
      requires Ready() && 0 <= u < Size()
      ensures (v in Order(u) && Admit(u, v)) <==> Admissible(u, v)
    {
      match KindOf(u)
      case SourceNode =>
        assert u == 0;
        if v in info.interviewers {
          var k :| 0 <= k < |info.interviewers| && info.interviewers[k] == v;
          assert 0 <= v < Size();
        }
        assert v in Order(u) <==> v in info.interviewers && Residual(0, v) > 0;
      case InterviewerNode =>
        assert v in Order(u) <==> v in info.slotFilters && SlotRoom(v) > 0;
        assert (v in Order(u) && Admit(u, v)) <==> Admissible(u, v);
      case SlotFilterNode =>
        assert v in Order(u) <==> 0 <= v < Size();
        assert (v in Order(u) && Admit(u, v)) <==> Admissible(u, v);
      case SlotNode =>
        assert v in Order(u) <==> v in info.candidates || v in info.slotFilters;
        assert (v in Order(u) && Admit(u, v)) <==> Admissible(u, v);
      case OtherNode =>
        assert v in Order(u) <==> 0 <= v < Size();
        assert (v in Order(u) && Admit(u, v)) <==> Admissible(u, v);
    }
  
    /** A walk along admissible steps, every node inside the matrix. */
    ghost predicate Walk(w: seq<int>)
      requires Ready()
      reads capacities, flows
    {
      |w| >= 1 && Within(w, 0, Size()) &&
      forall k :: 0 <= k < |w| - 1 ==> Admissible(w[k], w[k + 1])
    }

    /** The search, unrestricted by its visiting order, could get from `u` to `v`. */
    ghost predicate Reaches(u: int, v: int)
      requires Ready()
      reads capacities, flows
    {
      exists w :: Walk(w) && w[0] == u && w[|w| - 1] == v
    }

    ghost function QueuedIds(queue: seq<SearchNode>): set<int>
    {
      set q | q in queue :: q.id
    }

    /** A node in the search queue: its chain starts at `start`, stays inside the matrix and
        takes admissible steps, and its ancestors are distinct nodes already expanded. */
    ghost predicate Good(q: SearchNode, start: int, visited: set<int>)
      requires Ready()
      reads capacities, flows
    {
      var ids := Ids(q);
      ids[0] == start && Within(ids, 0, Size()) &&
      (forall k :: 0 <= k < |ids| - 1 ==> ids[k] in visited && Admissible(ids[k], ids[k + 1])) &&
      (forall a, b :: 0 <= a < b < |ids| - 1 ==> ids[a] != ids[b])
    }

    lemma GoodMonotone(q: SearchNode, start: int, visited: set<int>, more: set<int>)
      requires Ready() && Good(q, start, visited) && visited <= more
      ensures Good(q, start, more)
    {
    }

    /** Expanding a node not expanded before gives children that are good in turn. */
    lemma GoodChild(node: SearchNode, v: int, start: int, visited: set<int>)
      requires Ready() && Good(node, start, visited) && node.id !in visited
      requires 0 <= node.id < Size() && Admissible(node.id, v)
      ensures Good(Child(v, node), start, visited + {node.id})
    {
      var ids := Ids(node);
      assert Ids(Child(v, node)) == ids + [v];
    }

    /** A set that holds `start`, not the sink, and every admissible step out of its
        members, contains every walk from `start`; so no such walk ends at the sink. */
    lemma ClosedSetBlocksSink(start: int, visited: set<int>, w: seq<int>)
      requires Ready() && start in visited && sink !in visited
      requires forall u, v :: u in visited && 0 <= u < Size() && Admissible(u, v) ==> v in visited
      requires Walk(w) && w[0] == start
      ensures w[|w| - 1] != sink
    {
      var k := 0;
      while k < |w| - 1
        invariant 0 <= k <= |w| - 1 && w[k] in visited
      {
        assert Admissible(w[k], w[k + 1]);
        k := k + 1;
      }
    }

    /** A good node for the sink, which is never expanded, has a chain without repeats. */
    lemma SinkPath(node: SearchNode, start: int, visited: set<int>, p: seq<Edge>)
      requires Ready() && Good(node, start, visited) && node.id == sink && sink !in visited
      requires p == BuildIncrementalPath(node)
      ensures EdgesWithin(p, Size()) && PathFromTo(p, start, sink)
      ensures Simple(start, p)
      ensures forall k :: 0 <= k < |p| ==> Admissible(p[k].from, p[k].to)
    {
      var ids := Ids(node);
      SimpleChain(ids, p, visited, Size());
      ChainAdmissible(ids, p);
    }

    /** The edges of a chain of admissible steps are admissible. */
    lemma ChainAdmissible(ids: seq<int>, p: seq<Edge>)
      requires Ready() && Within(ids, 0, Size()) && |p| == |ids| - 1 && EdgesWithin(p, Size())
      requires forall k :: 0 <= k < |p| ==> p[k] == Edge(ids[k], ids[k + 1])
      requires forall k :: 0 <= k < |ids| - 1 ==> Admissible(ids[k], ids[k + 1])
      ensures forall k :: 0 <= k < |p| ==> Admissible(p[k].from, p[k].to)
    {
      forall k | 0 <= k < |p|
        ensures Admissible(p[k].from, p[k].to)
      {
        assert Admissible(ids[k], ids[k + 1]);
      }
    }

    /** The neighbours in `vs` that the search queues from `u`, in order. */
    function Admitted(u: int, vs: seq<int>): (r: seq<int>)
      requires Ready() && 0 <= u < Size() && Within(vs, 0, Size())
      reads capacities, flows
      ensures forall v :: v in r <==> v in vs && Admit(u, v)
    {
      if vs == [] then []
      else
        var last := vs[|vs| - 1];
        assert forall v :: v in vs <==> v in vs[..|vs| - 1] || v == last by {
          assert vs == vs[..|vs| - 1] + [last];
        }
        Admitted(u, vs[..|vs| - 1]) + (if Admit(u, last) then [last] else [])
    }

    lemma AdmittedSnoc(u: int, vs: seq<int>, x: int)
      requires Ready() && 0 <= u < Size() && Within(vs, 0, Size()) && 0 <= x < Size()
      ensures Within(vs + [x], 0, Size())
      ensures Admitted(u, vs + [x]) == Admitted(u, vs) + (if Admit(u, x) then [x] else [])
    {
      assert (vs + [x])[..|vs|] == vs;
    }

    /** The search nodes `new SearchNode(v, parent)` for each v, in order. */
    static function ChildNodes(parent: SearchNode, vs: seq<int>): (r: seq<SearchNode>)
      ensures |r| == |vs| && forall k :: 0 <= k < |vs| ==> r[k] == Child(vs[k], parent)
    {
      if vs == [] then [] else ChildNodes(parent, vs[..|vs| - 1]) + [Child(vs[|vs| - 1], parent)]
    }

    static lemma ChildNodesSnoc(parent: SearchNode, vs: seq<int>, x: int)
      ensures ChildNodes(parent, vs + [x]) == ChildNodes(parent, vs) + [Child(x, parent)]
    {
      assert (vs + [x])[..|vs|] == vs;
    }

    /** What holds between two rounds of the search: the expanded nodes are inside the
        matrix and exclude the sink, every queued node is good, the start is expanded or
        queued, and every admissible step out of an expanded node leads to a node that is
        expanded or queued. */
    ghost predicate SearchState(start: int, visited: set<int>, queue: seq<SearchNode>)
      requires Ready()
      reads capacities, flows
    {
      (forall v :: v in visited ==> 0 <= v < Size()) &&
      sink !in visited &&
      (forall q :: q in queue ==> Good(q, start, visited)) &&
      (start in visited || start in QueuedIds(queue)) &&
      (forall u, v :: u in visited && 0 <= u < Size() && Admissible(u, v) ==>
         v in visited || v in QueuedIds(queue))
    }

    lemma InitialState(start: int)
      requires Ready() && 0 <= start < Size()
      ensures SearchState(start, {}, [Root(start)])
    {
      assert Ids(Root(start)) == [start];
      assert start in QueuedIds([Root(start)]);
    }

    lemma StateHead(start: int, visited: set<int>, queue: seq<SearchNode>)
      requires Ready() && SearchState(start, visited, queue) && queue != []
      ensures Good(queue[0], start, visited) && 0 <= queue[0].id < Size()
    {
      assert queue[0] in queue;
      var ids := Ids(queue[0]);
      assert ids[|ids| - 1] == queue[0].id;
    }

    /** Dropping a node that was expanded already keeps the state. */
    lemma SkipKeepsState(start: int, visited: set<int>, queue: seq<SearchNode>)
      requires Ready() && SearchState(start, visited, queue) && queue != []
      requires queue[0].id in visited
      ensures SearchState(start, visited, queue[1..])
    {
      assert queue == [queue[0]] + queue[1..];
      assert QueuedIds(queue) == QueuedIds(queue[1..]) + {queue[0].id};
    }

    /** The children of a node expanded for the first time are good. */
    lemma ChildrenGood(node: SearchNode, start: int, visited: set<int>)
      requires Ready() && Good(node, start, visited) && node.id !in visited && 0 <= node.id < Size()
      ensures forall q :: q in ChildNodes(node, Admitted(node.id, Order(node.id))) ==>
                Good(q, start, visited + {node.id})
    {
      var a := Admitted(node.id, Order(node.id));
      var children := ChildNodes(node, a);
      forall q | q in children
        ensures Good(q, start, visited + {node.id})
      {
        var k :| 0 <= k < |children| && children[k] == q;
        OrderAdmitExact(node.id, a[k]);
        GoodChild(node, a[k], start, visited);
      }
    }

    /** Every admissible step out of an expanded node is queued as one of its children. */
    lemma ChildrenCover(node: SearchNode)
      requires Ready() && 0 <= node.id < Size()
      ensures forall v :: Admissible(node.id, v) ==>
                v in QueuedIds(ChildNodes(node, Admitted(node.id, Order(node.id))))
    {
      var a := Admitted(node.id, Order(node.id));
      var children := ChildNodes(node, a);
      forall v | Admissible(node.id, v)
        ensures v in QueuedIds(children)
      {
        OrderAdmitExact(node.id, v);
        var k :| 0 <= k < |a| && a[k] == v;
        assert children[k] in children;
      }
    }

    lemma QueuedAppend(a: seq<SearchNode>, b: seq<SearchNode>)
      ensures QueuedIds(a + b) == QueuedIds(a) + QueuedIds(b)
    {
      assert forall q :: q in a + b <==> q in a || q in b;
    }

    lemma QueuedCons(queue: seq<SearchNode>)
      requires queue != []
      ensures QueuedIds(queue) == QueuedIds(queue[1..]) + {queue[0].id}
    {
      assert queue == [queue[0]] + queue[1..];
      QueuedAppend([queue[0]], queue[1..]);
    }

    /** After an expansion every queued node is good for the grown set. */
    lemma NextGood(start: int, visited: set<int>, queue: seq<SearchNode>, more: set<int>, next: seq<SearchNode>)
      requires Ready() && queue != [] && 0 <= queue[0].id < Size()
      requires forall q :: q in queue ==> Good(q, start, visited)
      requires queue[0].id !in visited && more == visited + {queue[0].id}
      requires next == queue[1..] + ChildNodes(queue[0], Admitted(queue[0].id, Order(queue[0].id)))
      ensures forall q :: q in next ==> Good(q, start, more)
    {
      var node := queue[0];
      assert node in queue;
      ChildrenGood(node, start, visited);
      forall q | q in next
        ensures Good(q, start, more)
      {
        if q in queue[1..] {
          assert q in queue;
          GoodMonotone(q, start, visited, more);
        }
      }
    }

    /** After an expansion every admissible step out of an expanded node is expanded or
        queued. */
    lemma NextClosed(start: int, visited: set<int>, queue: seq<SearchNode>, more: set<int>, next: seq<SearchNode>)
      requires Ready() && queue != [] && 0 <= queue[0].id < Size()
      requires forall u, v :: u in visited && 0 <= u < Size() && Admissible(u, v) ==>
                 v in visited || v in QueuedIds(queue)
      requires more == visited + {queue[0].id}
      requires next == queue[1..] + ChildNodes(queue[0], Admitted(queue[0].id, Order(queue[0].id)))
      ensures forall u, v :: u in more && 0 <= u < Size() && Admissible(u, v) ==>
                v in more || v in QueuedIds(next)
    {
      var node := queue[0];
      var children := ChildNodes(node, Admitted(node.id, Order(node.id)));
      QueuedCons(queue);
      QueuedAppend(queue[1..], children);
      ChildrenCover(node);
    }

    static lemma BoundedAdd(s: set<int>, x: int, n: int)
      requires forall v :: v in s ==> 0 <= v < n
      requires 0 <= x < n
      ensures forall v :: v in s + {x} ==> 0 <= v < n
    {
    }

    /** Expanding the head node, which is neither expanded nor the sink, and queueing its
        admitted neighbours keeps the state. */
    lemma ExpandKeepsState(start: int, visited: set<int>, queue: seq<SearchNode>,
                           more: set<int>, next: seq<SearchNode>)
      requires Ready() && SearchState(start, visited, queue) && queue != [] && 0 <= queue[0].id < Size()
      requires queue[0].id !in visited && queue[0].id != sink
      requires more == visited + {queue[0].id}
      requires next == queue[1..] + ChildNodes(queue[0], Admitted(queue[0].id, Order(queue[0].id)))
      ensures SearchState(start, more, next)
    {
      NextGood(start, visited, queue, more, next);
      NextClosed(start, visited, queue, more, next);
      BoundedAdd(visited, queue[0].id, Size());
      assert sink !in more;
      assert start in more || start in QueuedIds(next) by {
        if start !in more {
          QueuedCons(queue);
          QueuedAppend(queue[1..], ChildNodes(queue[0], Admitted(queue[0].id, Order(queue[0].id))));
        }
      }
    }

    /** Once the queue is empty, the sink cannot be reached from the start. */
    lemma EmptyQueueBlocksSink(start: int, visited: set<int>)
      requires Ready() && SearchState(start, visited, [])
      ensures !Reaches(start, sink)
    {
      forall w | Walk(w) && w[0] == start
        ensures w[|w| - 1] != sink
      {
        ClosedSetBlocksSink(start, visited, w);
      }
    }

    /** One expansion of the search: the `if` chain picks the neighbour order for the
        node's kind, then for each neighbour in turn the search appends
        `new SearchNode(v, node)` to the queue when it admits `v`. */
    method EnqueueNeighbours(node: SearchNode, queue: seq<SearchNode>)
      returns (r: seq<SearchNode>)
      requires Ready() && 0 <= node.id < Size()
      ensures r == queue + ChildNodes(node, Admitted(node.id, Order(node.id)))
    {
      var order := Order(node.id);
      r := EnqueueAdmitted(node, order, queue);
      OrderFramed(node.id);
    }

    /** The neighbour order depends on the two matrices only. */
    twostate lemma OrderFramed(u: int)
      requires Ready() && 0 <= u < Size()
      requires unchanged(capacities) && unchanged(flows)
      ensures Order(u) == old(Order(u))
    {
    }

    /** The loop over one neighbour order: each admitted neighbour is appended, in turn. */
    method EnqueueAdmitted(node: SearchNode, order: seq<int>, queue: seq<SearchNode>)
      returns (r: seq<SearchNode>)
      requires Ready() && 0 <= node.id < Size() && Within(order, 0, Size())
      ensures r == queue + ChildNodes(node, Admitted(node.id, order))
    {
      r := queue;
      var k := 0;
      ghost var added: seq<SearchNode> := [];
      assert r == queue + added;
      while k < |order|
        invariant 0 <= k <= |order|
        invariant added == Enqueued(node, order, k)
        invariant r == queue + added
      {
        EnqueuedStep(node, order, k);
        if Admit(node.id, order[k]) {
          var child := Child(order[k], node);
          AppendAfter(queue, added, child);
          r := r + [child];
          added := added + [child];
        }
        k := k + 1;
      }
      assert order[..k] == order;
    }

    /** Pushing onto `queue + added` pushes onto `added`. */
    static lemma AppendAfter(queue: seq<SearchNode>, added: seq<SearchNode>, x: SearchNode)
      ensures (queue + added) + [x] == queue + (added + [x])
    {
    }

    /** The children queued after the first k neighbours of `order`. */
    ghost function Enqueued(node: SearchNode, order: seq<int>, k: nat): seq<SearchNode>
      requires Ready() && 0 <= node.id < Size() && Within(order, 0, Size()) && k <= |order|
      reads capacities, flows
    {
      WithinPrefix(order, k, 0, Size());
      ChildNodes(node, Admitted(node.id, order[..k]))
    }

    lemma EnqueuedStep(node: SearchNode, order: seq<int>, k: nat)
      requires Ready() && 0 <= node.id < Size() && Within(order, 0, Size()) && k < |order|
      ensures Enqueued(node, order, k + 1) ==
              Enqueued(node, order, k) + (if Admit(node.id, order[k]) then [Child(order[k], node)] else [])
    {
      WithinPrefix(order, k, 0, Size());
      assert order[..k + 1] == order[..k] + [order[k]];
      AdmittedSnoc(node.id, order[..k], order[k]);
      var a := Admitted(node.id, order[..k]);
      if Admit(node.id, order[k]) {
        ChildNodesSnoc(node, a, order[k]);
      } else {
        assert a + [] == a;
      }
    }

    /** searchIncrementalPath: breadth-first search from `start` over a FIFO queue of
        parent-pointer nodes, expanding each node at most once. A path it returns is simple,
        goes from `start` to the sink and takes only admissible steps; when it returns
        none, no admissible walk leads from `start` to the sink. */
    method SearchIncrementalPath(start: int) returns (r: Option<seq<Edge>>)
      requires Ready() && 0 <= start < Size()
      ensures r.Some? ==> EdgesWithin(r.value, Size()) && PathFromTo(r.value, start, sink)
      ensures r.Some? ==> Simple(start, r.value)
      ensures r.Some? ==> forall k :: 0 <= k < |r.value| ==> Admissible(r.value[k].from, r.value[k].to)
      ensures r.None? ==> !Reaches(start, sink)
    {
      var visited: set<int> := {};
      var queue := [Root(start)];
      InitialState(start);
      while queue != []
        invariant SearchState(start, visited, queue)
        invariant visited <= Range(Size())
        decreases Range(Size()) - visited, |queue|
      {
        StateHead(start, visited, queue);
        var node := queue[0];
        if node.id == sink {
          var path := BuildIncrementalPath(node);
          SinkPath(node, start, visited, path);
          return Some(path);
        }
        visited, queue := Visit(start, visited, queue);
      }
      EmptyQueueBlocksSink(start, visited);
      return None;
    }

    /** The rest of a round of the search once the head node is known not to be the sink:
        the node is dropped when it was expanded already; otherwise it is marked expanded
        and its admitted neighbours are queued. */
    method Visit(start: int, visited: set<int>, queue: seq<SearchNode>)
      returns (visited': set<int>, queue': seq<SearchNode>)
      requires Ready() && SearchState(start, visited, queue) && visited <= Range(Size())
      requires queue != [] && queue[0].id != sink
      ensures SearchState(start, visited', queue') && visited' <= Range(Size())
      ensures Range(Size()) - visited' < Range(Size()) - visited ||
              (visited' == visited && |queue'| < |queue|)
    {
      StateHead(start, visited, queue);
      var node := queue[0];
      if node.id in visited {
        SkipKeepsState(start, visited, queue);
        visited', queue' := visited, queue[1..];
      } else {
        queue' := EnqueueNeighbours(node, queue[1..]);
        visited' := visited + {node.id};
        ExpandKeepsState(start, visited, queue, visited', queue');
        Shrinks(Range(Size()), visited, node.id);
      }
    }

    /** Marking a new node of `all` expanded shrinks what is left to expand. */
    static lemma Shrinks(all: set<int>, visited: set<int>, v: int)
      requires v in all && v !in visited
      ensures all - (visited + {v}) < all - visited
    {
      assert v in all - visited && v !in all - (visited + {v});
    }

    /** A path calcMaxFlow can push one unit along: from the source through an interviewer
        to the sink, inside the matrix, no edge twice, residual capacity on every edge. */
    ghost predicate Augmenting(p: seq<Edge>)
      requires Ready()
      reads capacities, flows
    {
      p != [] && EdgesWithin(p, Size()) && PathFromTo(p, source, sink) && NoRepeatedEdge(p) &&
      p[0].to in info.interviewers &&
      forall k :: 0 <= k < |p| ==> Residual(p[k].from, p[k].to) > 0
    }

    /** A path the search found from an interviewer the source still reaches becomes an
        augmenting path once the edge from the source is put in front. */
    lemma PrependSource(i: int, q: seq<Edge>)
      requires Ready() && 0 <= i < Size() && i in info.interviewers && Residual(source, i) > 0
      requires EdgesWithin(q, Size()) && PathFromTo(q, i, sink) && Simple(i, q)
      requires forall k :: 0 <= k < |q| ==> Admissible(q[k].from, q[k].to)
      ensures q != [] && q[0].from == i
      ensures Augmenting([Edge(source, q[0].from)] + q)
    {
      MemberWithin(info.interviewers, i, 1, Size() - 1);
      PrependToSimple(source, i, sink, q);
      var p := [Edge(source, i)] + q;
      assert forall k :: 0 < k < |p| ==> p[k] == q[k - 1];
      forall k | 0 <= k < |p|
        ensures Residual(p[k].from, p[k].to) > 0
      {
        if k > 0 {
          assert Admissible(q[k - 1].from, q[k - 1].to);
        }
      }
    }

    /** The net amount a matrix sends out of the source (0 for an empty matrix). */
    ghost function Outflow(a: array2<int>): int
      requires Valid() && (a == flows || a == capacities)
      reads a
    {
      if Size() == 0 then 0 else Sum(Grid(a)[source])
    }

    /** An augmenting path meets what pushing one unit along it needs. */
    lemma AugmentStep(p: seq<Edge>)
      requires Ready() && Augmenting(p)
      ensures source != sink && 0 <= source < Size()
      ensures forall k :: 0 <= k < |p| ==>
                Grid(flows)[p[k].from][p[k].to] < Grid(capacities)[p[k].from][p[k].to]
    {
      MemberWithin(info.interviewers, p[0].to, 1, Size() - 1);
    }

    /** None of the ids in `vs` that the source can still send flow to leads to the sink. */
    ghost predicate Exhausted(vs: seq<int>)
      requires Ready() && Within(vs, 0, Size())
      reads capacities, flows
    {
      forall j :: 0 <= j < |vs| && Residual(source, vs[j]) > 0 ==> !Reaches(vs[j], sink)
    }

    /** Once every interviewer in the sorted list is exhausted, so is every interviewer. */
    lemma ExhaustedAll(vs: seq<int>)
      requires Ready() && Within(vs, 0, Size()) && Exhausted(vs)
      requires forall i :: 0 <= i < Size() && i in info.interviewers && Residual(source, i) > 0 ==> i in vs
      ensures forall i :: 0 <= i < Size() && i in info.interviewers && Residual(source, i) > 0 ==>
                !Reaches(i, sink)
    {
      forall i | 0 <= i < Size() && i in info.interviewers && Residual(source, i) > 0
        ensures !Reaches(i, sink)
      {
        var j :| 0 <= j < |vs| && vs[j] == i;
      }
    }

    /** searchPathFromInterviewer: tries the interviewers by remaining capacity and returns
        the first path found, with the edge from the source put in front. When it finds
        none, no interviewer the source can still reach leads to the sink. */
    method SearchPathFromInterviewer() returns (r: Option<seq<Edge>>)
      requires Ready()
      ensures r.Some? ==> Augmenting(r.value)
      ensures r.None? ==> forall i :: 0 <= i < Size() && i in info.interviewers && Residual(source, i) > 0 ==>
                !Reaches(i, sink)
    {
      var interviewers := SortInterviewersByAscendingWork();
      assert Within(interviewers, 0, Size()) by {
        forall k | 0 <= k < |interviewers| ensures 0 <= interviewers[k] < Size() {
          MemberWithin(info.interviewers, interviewers[k], 1, Size() - 1);
        }
      }
      r := TryInterviewers(interviewers);
    }

    /** The `for (const interviewer of interviewers)` loop of searchPathFromInterviewer:
        a search from each interviewer with residual capacity from the source, in order,
        until one reaches the sink. */
    method TryInterviewers(interviewers: seq<int>) returns (r: Option<seq<Edge>>)
      requires Ready() && Within(interviewers, 0, Size())
      requires forall k :: 0 <= k < |interviewers| ==> interviewers[k] in info.interviewers
      requires forall i :: 0 <= i < Size() && i in info.interviewers && Residual(source, i) > 0 ==>
                 i in interviewers
      ensures r.Some? ==> Augmenting(r.value)
      ensures r.None? ==> forall i :: 0 <= i < Size() && i in info.interviewers && Residual(source, i) > 0 ==>
                !Reaches(i, sink)
    {
      var k := 0;
      while k < |interviewers|
        invariant 0 <= k <= |interviewers|
        invariant forall j :: 0 <= j < k && Residual(source, interviewers[j]) > 0 ==>
                    !Reaches(interviewers[j], sink)
      {
        var i := interviewers[k];
        if Residual(source, i) > 0 {
          var path := SearchIncrementalPath(i);
          if path.Some? {
            var q := path.value;
            PrependSource(i, q);
            return Some([Edge(source, q[0].from)] + q);
          }
        }
        k := k + 1;
      }
      ExhaustedAll(interviewers);
      return None;
    }

    /** The `forEach` of calcMaxFlow over a path: `++flows[from][to]; --flows[to][from]`
        for each edge in turn. */
    method Augment(p: seq<Edge>)
      requires Valid() && EdgesWithin(p, Size())
      modifies flows
      ensures Grid(flows) == Augmented(old(Grid(flows)), p)
    {
      ghost var m0 := Grid(flows);
      var k := 0;
      while k < |p|
        invariant 0 <= k <= |p|
        invariant EdgesWithin(p[..k], Size())
        invariant Grid(flows) == Augmented(m0, p[..k])
      {
        var e := p[k];
        PushEdge(e);
        AugmentedSnoc(m0, p[..k], e);
        assert p[..k + 1] == p[..k] + [e];
        k := k + 1;
      }
      assert p[..k] == p;
    }

    /** One step of that `forEach`: one more unit from `e.from` to `e.to`, one less back. */
    method PushEdge(e: Edge)
      requires Valid() && 0 <= e.from < Size() && 0 <= e.to < Size()
      modifies flows
      ensures Grid(flows) == Push(old(Grid(flows)), e)
    {
      ghost var before := Grid(flows);
      flows[e.from, e.to] := flows[e.from, e.to] + 1;
      flows[e.to, e.from] := flows[e.to, e.from] - 1;
      forall i | 0 <= i < Size()
        ensures Grid(flows)[i] == Push(before, e)[i]
      {
      }
    }

    /** calcMaxFlow: pushes one unit along each path searchPathFromInterviewer finds, until
        it finds none, and returns the flow matrix. Starting from a flow that respects
        antisymmetry, the capacities and conservation, every round keeps them and raises
        the flow out of the source by one, so the loop ends; at the end no interviewer the
        source can still reach leads to the sink. */
    method CalcMaxFlow() returns (r: array2<int>)
      requires Ready()
      requires FlowInvariants(Grid(flows), Grid(capacities), source, sink)
      modifies flows
      ensures r == flows
      ensures FlowInvariants(Grid(flows), Grid(capacities), source, sink)
      ensures Outflow(flows) >= old(Outflow(flows))
      ensures forall i :: 0 <= i < Size() && i in info.interviewers && Residual(source, i) > 0 ==>
                !Reaches(i, sink)
    {
      while true
        invariant FlowInvariants(Grid(flows), Grid(capacities), source, sink)
        invariant Outflow(flows) >= old(Outflow(flows))
        decreases Outflow(capacities) - Outflow(flows)
      {
        var path := SearchPathFromInterviewer();
        if path.None? {
          break;
        }
        ghost var m := Grid(flows);
        AugmentStep(path.value);
        Augment(path.value);
        AugmentPreservesFlow(m, Grid(capacities), path.value, source, sink);
        OutflowBounded(Grid(flows), Grid(capacities), source);
      }
      return flows;
    }
  }
}
