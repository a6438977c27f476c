/** The interview matcher (src/matcher.js): the slot catalogue, the layered flow network
    built from candidates and interviewers, its capacities, the pruning of slots too few
    interviewers declared, and the decoding of a flow into interview records. */
module Matcher {
  import opened Results
  import opened Entities
  import Lexicographic
  import opened FlowNetwork
  import FF = FordFulkerson

  /** A candidate or an interviewer: an id and the slots they declared, in order. */
  datatype Participant = Participant(id: string, slots: seq<string>)

  /** `config`: how many interviewers each interview needs, and how many interviews an
      interviewer may take at most. */
  datatype Config = Config(interviewersPerSlot: int, maxInterviewsPerInterviewer: int)

  /** One interview: its slot, the names of its interviewers and its candidate (`null`
      when no candidate holds the slot). */
  datatype MatchRecord = MatchRecord(slot: string, interviewers: seq<string>, candidate: Option<string>)

  // ---------------------------------------------------------------------------------
  // getSlots

  /** Some participant in `ps` declared slot `s`. */
  predicate Declared(ps: seq<Participant>, s: string)
  {
    exists k :: 0 <= k < |ps| && s in ps[k].slots
  }

  /** Adds each slot of `ss` to the ascending catalogue `acc` (`slots.add(slot)`). */
  function AddAll(acc: seq<string>, ss: seq<string>): (r: seq<string>)
    requires Lexicographic.StrictlyAscending(acc)
    ensures Lexicographic.StrictlyAscending(r)
    ensures forall s :: s in r <==> s in acc || s in ss
    decreases |ss|
  {
    if ss == [] then acc
    else
      var r := AddAll(Lexicographic.Insert(acc, ss[0]), ss[1..]);
      assert forall s :: s in ss <==> s == ss[0] || s in ss[1..] by {
        assert ss == [ss[0]] + ss[1..];
      }
      r
  }

  /** Adds the slots of every participant of `ps`, in order. */
  function AddDeclared(acc: seq<string>, ps: seq<Participant>): (r: seq<string>)
    requires Lexicographic.StrictlyAscending(acc)
    ensures Lexicographic.StrictlyAscending(r)
    ensures forall s :: s in r <==> s in acc || Declared(ps, s)
    decreases |ps|
  {
    if ps == [] then acc
    else
      var r := AddDeclared(AddAll(acc, ps[0].slots), ps[1..]);
      assert forall s :: Declared(ps, s) <==> s in ps[0].slots || Declared(ps[1..], s) by {
        forall s | Declared(ps, s) && s !in ps[0].slots
          ensures Declared(ps[1..], s)
        {
          var k :| 0 <= k < |ps| && s in ps[k].slots;
          assert ps[1..][k - 1] == ps[k];
        }
        forall s | Declared(ps[1..], s)
          ensures Declared(ps, s)
        {
          var k :| 0 <= k < |ps[1..]| && s in ps[1..][k].slots;
          assert ps[k + 1] == ps[1..][k];
        }
      }
      r
  }

  /** getSlots: every slot some candidate or interviewer declared, once each, in string
      order. */
  function GetSlots(candidates: seq<Participant>, interviewers: seq<Participant>): (r: seq<string>)
    ensures Lexicographic.StrictlyAscending(r)
    ensures forall s :: s in r <==> Declared(candidates, s) || Declared(interviewers, s)
  {
    AddDeclared(AddDeclared([], candidates), interviewers)
  }

  /** A strictly ascending list is fixed by its elements: sorting the set of declared
      slots in any way gives the same catalogue. */
  lemma {:induction false} AscendingUnique(a: seq<string>, b: seq<string>)
    requires Lexicographic.StrictlyAscending(a) && Lexicographic.StrictlyAscending(b)
    requires forall s :: s in a <==> s in b
    ensures a == b
    decreases |a| + |b|
  {
    if a != [] {
      assert a[0] in a;
    }
    if b != [] {
      assert b[0] in b;
    }
    if a != [] && b != [] {
      assert a[0] in b && b[0] in a;
      if a[0] != b[0] {
        var i :| 0 <= i < |b| && b[i] == a[0];
        var j :| 0 <= j < |a| && a[j] == b[0];
        assert Lexicographic.Less(b[0], a[0]) && Lexicographic.Less(a[0], b[0]);
        Lexicographic.LessTransitive(a[0], b[0], a[0]);
        Lexicographic.LessIrreflexive(a[0]);
      }
      forall s | s in a[1..]
        ensures s in b[1..]
      {
        var i :| 1 <= i < |a| && a[i] == s;
        Lexicographic.LessIrreflexive(s);
        assert s != b[0] && s in a;
        var j :| 0 <= j < |b| && b[j] == s;
        assert b[1..][j - 1] == s;
      }
      forall s | s in b[1..]
        ensures s in a[1..]
      {
        var i :| 1 <= i < |b| && b[i] == s;
        Lexicographic.LessIrreflexive(s);
        assert s != a[0] && s in b;
        var j :| 0 <= j < |a| && a[j] == s;
        assert a[1..][j - 1] == s;
      }
      AscendingUnique(a[1..], b[1..]);
      assert a == [a[0]] + a[1..] && b == [b[0]] + b[1..];
    }
  }

  // ---------------------------------------------------------------------------------
  // buildCapacitiesGraph: node layout

  /** `graph_nodes_map`: an object built by assignments, as (key, id) pairs in insertion
      order (no key is integer-like, so this is the order `Object.entries` lists). */
  type NodeMap = seq<(string, int)>

  predicate HasKey(m: NodeMap, key: string)
  {
    exists k :: 0 <= k < |m| && m[k].0 == key
  }

  /** `m[key] = v`: an existing key keeps its place and takes the new value, a new key
      goes at the end. */
  function Put(m: NodeMap, key: string, v: int): (r: NodeMap)
    ensures |r| == |m| + (if HasKey(m, key) then 0 else 1)
  {
    if m == [] then [(key, v)]
    else if m[0].0 == key then
      assert HasKey(m, key) by { assert m[0].0 == key; }
      [(key, v)] + m[1..]
    else
      assert HasKey(m, key) <==> HasKey(m[1..], key) by {
        if HasKey(m, key) {
          var k :| 0 <= k < |m| && m[k].0 == key;
          assert m[1..][k - 1] == m[k];
        }
        if HasKey(m[1..], key) {
          var k :| 0 <= k < |m[1..]| && m[1..][k].0 == key;
          assert m[k + 1] == m[1..][k];
        }
      }
      [m[0]] + Put(m[1..], key, v)
  }

  /** The assignments of `entries`, in order. */
  function PutAll(m: NodeMap, entries: seq<(string, int)>): NodeMap
    decreases |entries|
  {
    if entries == [] then m else PutAll(Put(m, entries[0].0, entries[0].1), entries[1..])
  }

  /** `graph_nodes_map[key]`, the first (and, as built, only) entry with that key. */
  function Lookup(m: NodeMap, key: string): (r: Option<int>)
    ensures r.Some? <==> HasKey(m, key)
  {
    if m == [] then None
    else if m[0].0 == key then Some(m[0].1)
    else
      var r := Lookup(m[1..], key);
      assert HasKey(m, key) <==> HasKey(m[1..], key) by {
        if HasKey(m, key) {
          var k :| 0 <= k < |m| && m[k].0 == key;
          assert m[1..][k - 1] == m[k];
        }
        if HasKey(m[1..], key) {
          var k :| 0 <= k < |m[1..]| && m[1..][k].0 == key;
          assert m[k + 1] == m[1..][k];
        }
      }
      r
  }

  /** `graph_reverse_nodes_map[id]`: the reverse map is filled in entry order, so the last
      entry with value `id` wins. */
  function NameOf(m: NodeMap, id: int): Option<string>
  {
    if m == [] then None
    else if m[|m| - 1].1 == id then Some(m[|m| - 1].0)
    else NameOf(m[..|m| - 1], id)
  }

  /** The assignments buildCapacitiesGraph makes, in program order: the source at offset 0,
      interviewer i at 1 + i, slot-filter k at 1 + I + k, slot k at 1 + I + S + k,
      candidate c at 1 + I + 2S + c and the sink after them. */
  function Assignments(candidates: seq<Participant>, interviewers: seq<Participant>, slots: seq<string>)
    : (r: seq<(string, int)>)
    ensures |r| == |interviewers| + 2 * |slots| + |candidates| + 2
  {
    var i := |interviewers|;
    var s := |slots|;
    [("source", 0)] +
    seq(i, k requires 0 <= k < i => (HashEntity("interviewer", interviewers[k].id), 1 + k)) +
    seq(s, k requires 0 <= k < s => (HashEntity("slot_filter", slots[k]), 1 + i + k)) +
    seq(s, k requires 0 <= k < s => (HashEntity("slot", slots[k]), 1 + i + s + k)) +
    seq(|candidates|, k requires 0 <= k < |candidates| =>
      (HashEntity("candidate", candidates[k].id), 1 + i + 2 * s + k)) +
    [("sink", 1 + i + 2 * s + |candidates|)]
  }

  /** No two assignments use the same key: the layout holds only then (keys of different
      types can collide, see `Entities.KeysOfDifferentTypesCollide`). */
  predicate DistinctKeys(candidates: seq<Participant>, interviewers: seq<Participant>, slots: seq<string>)
  {
    var a := Assignments(candidates, interviewers, slots);
    forall x, y :: 0 <= x < y < |a| ==> a[x].0 != a[y].0
  }

  /** The layer formulas: the k-th assignment gives id k, so node ids are 0 .. n - 1 in
      layer order. */
  lemma AssignmentIds(candidates: seq<Participant>, interviewers: seq<Participant>, slots: seq<string>)
    ensures var a := Assignments(candidates, interviewers, slots);
            forall k :: 0 <= k < |a| ==> a[k].1 == k
  {
  }

  lemma {:induction false} PutNew(m: NodeMap, key: string, v: int)
    requires !HasKey(m, key)
    ensures Put(m, key, v) == m + [(key, v)]
  {
    if m != [] {
      assert forall k :: 0 <= k < |m[1..]| ==> m[1..][k] == m[k + 1];
      PutNew(m[1..], key, v);
      assert m == [m[0]] + m[1..];
    }
  }

  /** Assignments to distinct new keys append in order. */
  lemma {:induction false} PutAllNew(m: NodeMap, entries: seq<(string, int)>)
    requires forall x, y :: 0 <= x < y < |entries| ==> entries[x].0 != entries[y].0
    requires forall k :: 0 <= k < |entries| ==> !HasKey(m, entries[k].0)
    ensures PutAll(m, entries) == m + entries
    decreases |entries|
  {
    if entries != [] {
      PutNew(m, entries[0].0, entries[0].1);
      var m' := m + [entries[0]];
      forall k | 0 <= k < |entries[1..]|
        ensures !HasKey(m', entries[1..][k].0)
      {
        var key := entries[k + 1].0;
        assert entries[1..][k] == entries[k + 1];
        assert !HasKey(m, key);
        assert forall j :: 0 <= j < |m'| ==> m'[j].0 != key by {
          forall j | 0 <= j < |m'|
            ensures m'[j].0 != key
          {
            if j < |m| {
              assert m'[j] == m[j];
            } else {
              assert m'[j] == entries[0];
            }
          }
        }
      }
      PutAllNew(m', entries[1..]);
      assert m' + entries[1..] == m + entries;
    }
  }

  /** `graph_nodes_map` as buildCapacitiesGraph leaves it. */
  function NodesMap(candidates: seq<Participant>, interviewers: seq<Participant>, slots: seq<string>): NodeMap
  {
    PutAll([], Assignments(candidates, interviewers, slots))
  }

  /** With distinct keys the map lists every assignment, in order, so it has
      I + 2S + C + 2 keys and each key maps to its own position. */
  lemma NodesMapLayout(candidates: seq<Participant>, interviewers: seq<Participant>, slots: seq<string>)
    requires DistinctKeys(candidates, interviewers, slots)
    ensures NodesMap(candidates, interviewers, slots) == Assignments(candidates, interviewers, slots)
    ensures |NodesMap(candidates, interviewers, slots)| ==
            |interviewers| + 2 * |slots| + |candidates| + 2
  {
    PutAllNew([], Assignments(candidates, interviewers, slots));
  }

  /** In a map whose k-th entry has value k and whose keys are distinct, looking up the
      key of entry k gives k and the reverse map gives back that key. */
  lemma {:induction false} LookupPositions(m: NodeMap, k: int)
    requires forall j :: 0 <= j < |m| ==> m[j].1 == j
    requires forall x, y :: 0 <= x < y < |m| ==> m[x].0 != m[y].0
    requires 0 <= k < |m|
    ensures Lookup(m, m[k].0) == Some(k)
    ensures NameOf(m, k) == Some(m[k].0)
  {
    LookupAt(m, k);
    NameAt(m, k);
  }

  lemma {:induction false} LookupAt(m: NodeMap, k: int)
    requires forall x, y :: 0 <= x < y < |m| ==> m[x].0 != m[y].0
    requires 0 <= k < |m|
    ensures Lookup(m, m[k].0) == Some(m[k].1)
  {
    if k > 0 {
      assert m[0].0 != m[k].0;
      LookupAt(m[1..], k - 1);
    }
  }

  lemma {:induction false} NameAt(m: NodeMap, k: int)
    requires forall j :: 0 <= j < |m| ==> m[j].1 == j
    requires 0 <= k < |m|
    ensures NameOf(m, k) == Some(m[k].0)
  {
    if k < |m| - 1 {
      NameAt(m[..|m| - 1], k);
    }
  }

  /** A run of consecutive ids. */
  lemma RunMembers(s: seq<int>, lo: int)
    requires forall k :: 0 <= k < |s| ==> s[k] == lo + k
    ensures forall v :: v in s <==> lo <= v < lo + |s|
  {
    forall v | lo <= v < lo + |s|
      ensures v in s
    {
      assert s[v - lo] == v;
    }
  }

  /** `graph_info`: the ids of each layer, in the order they were added. */
  function Info(numCandidates: nat, numInterviewers: nat, numSlots: nat): (info: FF.GraphInfo)
    ensures |info.interviewers| == numInterviewers && |info.candidates| == numCandidates
    ensures |info.slotFilters| == numSlots && |info.slots| == numSlots
    ensures forall v :: v in info.interviewers <==> 1 <= v <= numInterviewers
    ensures forall v :: v in info.slotFilters <==> numInterviewers < v <= numInterviewers + numSlots
    ensures forall v :: v in info.slots <==> numInterviewers + numSlots < v <= numInterviewers + 2 * numSlots
    ensures forall v :: v in info.candidates <==>
              numInterviewers + 2 * numSlots < v <= numInterviewers + 2 * numSlots + numCandidates
  {
    var i := numInterviewers;
    var s := numSlots;
    var info := FF.GraphInfo(
      seq(i, k => 1 + k),
      seq(s, k => 1 + i + k),
      seq(s, k => 1 + i + s + k),
      seq(numCandidates, k => 1 + i + 2 * s + k));
    RunMembers(info.interviewers, 1);
    RunMembers(info.slotFilters, 1 + i);
    RunMembers(info.slots, 1 + i + s);
    RunMembers(info.candidates, 1 + i + 2 * s);
    info
  }

  /** `graph_info` fits the I + 2S + C + 2 node matrix as the max-flow search needs: each
      layer ascending and inner, and each slot-filter with its slot inside the matrix. */
  lemma InfoFitsLayout(numCandidates: nat, numInterviewers: nat, numSlots: nat)
    ensures FF.InfoFits(Info(numCandidates, numInterviewers, numSlots),
                        numInterviewers + 2 * numSlots + numCandidates + 2)
  {
  }

  /** The four layers of `graph_info` partition the inner ids 1 .. n - 2, and they fit the
      matrix as the max-flow search needs: each layer ascending and inner, and each
      slot-filter f with its slot at f + S. */
  lemma InfoLayout(numCandidates: nat, numInterviewers: nat, numSlots: nat)
    ensures var info := Info(numCandidates, numInterviewers, numSlots);
            var n := numInterviewers + 2 * numSlots + numCandidates + 2;
            FF.InfoFits(info, n) &&
            (forall f :: f in info.slotFilters ==> f + numSlots in info.slots) &&
            (forall v :: 1 <= v <= n - 2 <==>
               v in info.interviewers || v in info.slotFilters || v in info.slots || v in info.candidates)
  {
    var info := Info(numCandidates, numInterviewers, numSlots);
    var i := numInterviewers;
    var s := numSlots;
    forall v | 1 <= v <= i + 2 * s + numCandidates
      ensures v in info.interviewers || v in info.slotFilters || v in info.slots || v in info.candidates
    {
      if v <= i {
        assert info.interviewers[v - 1] == v;
      } else if v <= i + s {
        assert info.slotFilters[v - 1 - i] == v;
      } else if v <= i + 2 * s {
        assert info.slots[v - 1 - i - s] == v;
      } else {
        assert info.candidates[v - 1 - i - 2 * s] == v;
      }
    }
    forall f | f in info.slotFilters
      ensures f + s in info.slots
    {
      var k :| 0 <= k < s && info.slotFilters[k] == f;
      assert info.slots[k] == f + s;
    }
  }

  /** buildCapacitiesGraph: the node map, the graph information and an all-zero square
      matrix with one row per distinct key of the map. */
  method BuildCapacitiesGraph(candidates: seq<Participant>, interviewers: seq<Participant>, slots: seq<string>)
    returns (capacities: array2<int>, nodes: NodeMap, info: FF.GraphInfo)
    ensures nodes == NodesMap(candidates, interviewers, slots)
    ensures info == Info(|candidates|, |interviewers|, |slots|)
    ensures fresh(capacities) && capacities.Length0 == capacities.Length1 == |nodes|
    ensures forall i, j :: 0 <= i < |nodes| && 0 <= j < |nodes| ==> capacities[i, j] == 0
  {
    nodes := NodesMap(candidates, interviewers, slots);
    info := Info(|candidates|, |interviewers|, |slots|);
    capacities := new int[|nodes|, |nodes|]((i, j) => 0);
  }

  /** The keys of the layout, layer by layer. */
  lemma AssignmentKeys(candidates: seq<Participant>, interviewers: seq<Participant>, slots: seq<string>)
    ensures var a := Assignments(candidates, interviewers, slots);
            var ni := |interviewers|;
            var ns := |slots|;
            a[0].0 == "source" && a[ni + 2 * ns + |candidates| + 1].0 == "sink" &&
            (forall k :: 0 <= k < ni ==> a[1 + k].0 == HashEntity("interviewer", interviewers[k].id)) &&
            (forall k :: 0 <= k < ns ==> a[1 + ni + k].0 == HashEntity("slot_filter", slots[k])) &&
            (forall k :: 0 <= k < ns ==> a[1 + ni + ns + k].0 == HashEntity("slot", slots[k])) &&
            (forall k :: 0 <= k < |candidates| ==>
               a[1 + ni + 2 * ns + k].0 == HashEntity("candidate", candidates[k].id))
  {
  }

  /** The key at position k of the layout, layer by layer. */
  lemma LayerKeys(candidates: seq<Participant>, interviewers: seq<Participant>, slots: seq<string>, k: int)
    requires 0 <= k < |interviewers| + 2 * |slots| + |candidates| + 2
    ensures var a := Assignments(candidates, interviewers, slots);
            var ni, ns := |interviewers|, |slots|;
            (k == 0 ==> a[k].0 == "source") &&
            (1 <= k <= ni ==> a[k].0 == HashEntity("interviewer", interviewers[k - 1].id)) &&
            (ni < k <= ni + ns ==> a[k].0 == HashEntity("slot_filter", slots[k - 1 - ni])) &&
            (ni + ns < k <= ni + 2 * ns ==> a[k].0 == HashEntity("slot", slots[k - 1 - ni - ns])) &&
            (ni + 2 * ns < k <= ni + 2 * ns + |candidates| ==>
               a[k].0 == HashEntity("candidate", candidates[k - 1 - ni - 2 * ns].id)) &&
            (k == ni + 2 * ns + |candidates| + 1 ==> a[k].0 == "sink")
  {
    AssignmentKeys(candidates, interviewers, slots);
  }

  /** With distinct keys, looking up the k-th key of the layout gives k, and the reverse map
      gives the key back. */
  lemma KeyAt(candidates: seq<Participant>, interviewers: seq<Participant>, slots: seq<string>, k: int)
    requires DistinctKeys(candidates, interviewers, slots)
    requires 0 <= k < |interviewers| + 2 * |slots| + |candidates| + 2
    ensures var a := Assignments(candidates, interviewers, slots);
            var m := NodesMap(candidates, interviewers, slots);
            Lookup(m, a[k].0) == Some(k) && NameOf(m, k) == Some(a[k].0)
  {
    NodesMapLayout(candidates, interviewers, slots);
    AssignmentIds(candidates, interviewers, slots);
    LookupPositions(Assignments(candidates, interviewers, slots), k);
  }

  /** Where `nodes` puts the source, the sink, and each participant and slot: the ids of
      the layout. */
  lemma EndpointIds(candidates: seq<Participant>, interviewers: seq<Participant>, slots: seq<string>)
    requires DistinctKeys(candidates, interviewers, slots)
    ensures Lookup(NodesMap(candidates, interviewers, slots), "source") == Some(0)
    ensures Lookup(NodesMap(candidates, interviewers, slots), "sink") ==
            Some(|interviewers| + 2 * |slots| + |candidates| + 1)
  {
    LayerKeys(candidates, interviewers, slots, 0);
    KeyAt(candidates, interviewers, slots, 0);
    LayerKeys(candidates, interviewers, slots, |interviewers| + 2 * |slots| + |candidates| + 1);
    KeyAt(candidates, interviewers, slots, |interviewers| + 2 * |slots| + |candidates| + 1);
  }

  lemma InterviewerId(candidates: seq<Participant>, interviewers: seq<Participant>, slots: seq<string>, k: int)
    requires DistinctKeys(candidates, interviewers, slots) && 0 <= k < |interviewers|
    ensures Lookup(NodesMap(candidates, interviewers, slots), HashEntity("interviewer", interviewers[k].id)) ==
            Some(1 + k)
  {
    LayerKeys(candidates, interviewers, slots, 1 + k);
    KeyAt(candidates, interviewers, slots, 1 + k);
  }

  lemma SlotFilterId(candidates: seq<Participant>, interviewers: seq<Participant>, slots: seq<string>, k: int)
    requires DistinctKeys(candidates, interviewers, slots) && 0 <= k < |slots|
    ensures Lookup(NodesMap(candidates, interviewers, slots), HashEntity("slot_filter", slots[k])) ==
            Some(1 + |interviewers| + k)
  {
    LayerKeys(candidates, interviewers, slots, 1 + |interviewers| + k);
    KeyAt(candidates, interviewers, slots, 1 + |interviewers| + k);
  }

  lemma SlotId(candidates: seq<Participant>, interviewers: seq<Participant>, slots: seq<string>, k: int)
    requires DistinctKeys(candidates, interviewers, slots) && 0 <= k < |slots|
    ensures Lookup(NodesMap(candidates, interviewers, slots), HashEntity("slot", slots[k])) ==
            Some(1 + |interviewers| + |slots| + k)
  {
    LayerKeys(candidates, interviewers, slots, 1 + |interviewers| + |slots| + k);
    KeyAt(candidates, interviewers, slots, 1 + |interviewers| + |slots| + k);
  }

  lemma CandidateId(candidates: seq<Participant>, interviewers: seq<Participant>, slots: seq<string>, k: int)
    requires DistinctKeys(candidates, interviewers, slots) && 0 <= k < |candidates|
    ensures Lookup(NodesMap(candidates, interviewers, slots), HashEntity("candidate", candidates[k].id)) ==
            Some(1 + |interviewers| + 2 * |slots| + k)
  {
    LayerKeys(candidates, interviewers, slots, 1 + |interviewers| + 2 * |slots| + k);
    KeyAt(candidates, interviewers, slots, 1 + |interviewers| + 2 * |slots| + k);
  }

  /** Distinct keys imply distinct slots. */
  lemma SlotsDistinct(candidates: seq<Participant>, interviewers: seq<Participant>, slots: seq<string>)
    requires DistinctKeys(candidates, interviewers, slots)
    ensures forall x, y :: 0 <= x < y < |slots| ==> slots[x] != slots[y]
  {
    var a := Assignments(candidates, interviewers, slots);
    forall x, y | 0 <= x < y < |slots|
      ensures slots[x] != slots[y]
    {
      LayerKeys(candidates, interviewers, slots, 1 + |interviewers| + x);
      LayerKeys(candidates, interviewers, slots, 1 + |interviewers| + y);
      assert a[1 + |interviewers| + x].0 != a[1 + |interviewers| + y].0;
    }
  }

  // ---------------------------------------------------------------------------------
  // populateCapacitiesGraph

  /** What the matcher's graph functions rely on: distinct keys, the node map and
      `graph_info` that buildCapacitiesGraph produced, a square matrix with one row per key,
      and every declared slot in the catalogue. */
  ghost predicate Graph(candidates: seq<Participant>, interviewers: seq<Participant>, slots: seq<string>,
                  capacities: array2<int>, nodes: NodeMap)
  {
    DistinctKeys(candidates, interviewers, slots) &&
    nodes == NodesMap(candidates, interviewers, slots) &&
    capacities.Length0 == capacities.Length1 == |interviewers| + 2 * |slots| + |candidates| + 2 &&
    forall s :: Declared(candidates, s) || Declared(interviewers, s) ==> s in slots
  }

  /** The layer of node u: 0 the source, 1 interviewers, 2 slot-filters, 3 slots,
      4 candidates, 5 the sink. */
  function LayerOf(ni: nat, ns: nat, nc: nat, u: int): (l: int)
    ensures 0 <= l <= 5
  {
    if u <= 0 then 0
    else if u <= ni then 1
    else if u <= ni + ns then 2
    else if u <= ni + 2 * ns then 3
    else if u <= ni + 2 * ns + nc then 4
    else 5
  }

  /** The capacity populateCapacitiesGraph gives edge (u, v), if it writes one: the
      interviews cap from the source to each interviewer, 1 from an interviewer to the
      filter of each slot they declared, 1 from a filter to its slot and
      `interviewers_per_slot - 1` from it to the sink, 1 from a slot to each candidate who
      declared it, and 1 from each candidate to the sink. */
  function Capacity(candidates: seq<Participant>, interviewers: seq<Participant>, slots: seq<string>,
                    config: Config, u: int, v: int): Option<int>
  {
    var ni := |interviewers|;
    var ns := |slots|;
    var sink := ni + 2 * ns + |candidates| + 1;
    if u == 0 then
      if 1 <= v <= ni then Some(config.maxInterviewsPerInterviewer) else None
    else if 1 <= u <= ni then
      if ni < v <= ni + ns && slots[v - 1 - ni] in interviewers[u - 1].slots then Some(1) else None
    else if ni < u <= ni + ns then
      if v == u + ns then Some(1)
      else if v == sink then Some(config.interviewersPerSlot - 1)
      else None
    else if ni + ns < u <= ni + 2 * ns then
      if ni + 2 * ns < v < sink && slots[u - 1 - ni - ns] in candidates[v - 1 - ni - 2 * ns].slots
      then Some(1) else None
    else if ni + 2 * ns < u < sink then
      if v == sink then Some(1) else None
    else None
  }

  function Overwrite(w: Option<int>, x: int): int
  {
    if w.Some? then w.value else x
  }

  /** populateCapacitiesGraph: every edge the layout gives a capacity to takes it, every
      other entry keeps its value. */
  method PopulateCapacitiesGraph(candidates: seq<Participant>, interviewers: seq<Participant>,
                                 slots: seq<string>, capacities: array2<int>, nodes: NodeMap,
                                 config: Config)
    requires Graph(candidates, interviewers, slots, capacities, nodes)
    modifies capacities
    ensures forall u, v :: 0 <= u < capacities.Length0 && 0 <= v < capacities.Length1 ==>
              capacities[u, v] ==
              Overwrite(Capacity(candidates, interviewers, slots, config, u, v), old(capacities[u, v]))
  {
    SourceToInterviewers(candidates, interviewers, slots, capacities, nodes, config);
    InterviewersToSlotFilters(candidates, interviewers, slots, capacities, nodes, config);
    SlotFiltersToSlotsAndSink(candidates, interviewers, slots, capacities, nodes, config);
    SlotsToCandidates(candidates, interviewers, slots, capacities, nodes, config);
    CandidatesToSink(candidates, interviewers, slots, capacities, nodes, config);
  }

  /** Source to interviewers: `capacities[source][interviewer] = max_interviews_per_interviewer`. */
  method SourceToInterviewers(candidates: seq<Participant>, interviewers: seq<Participant>,
                              slots: seq<string>, capacities: array2<int>, nodes: NodeMap,
                              config: Config)
    requires Graph(candidates, interviewers, slots, capacities, nodes)
    modifies capacities
    ensures forall u, v :: 0 <= u < capacities.Length0 && 0 <= v < capacities.Length1 ==>
              capacities[u, v] ==
              if LayerOf(|interviewers|, |slots|, |candidates|, u) == 0
              then Overwrite(Capacity(candidates, interviewers, slots, config, u, v), old(capacities[u, v]))
              else old(capacities[u, v])
  {
    EndpointIds(candidates, interviewers, slots);
    var k := 0;
    while k < |interviewers|
      invariant 0 <= k <= |interviewers|
      invariant forall u, v :: 0 <= u < capacities.Length0 && 0 <= v < capacities.Length1 ==>
                  capacities[u, v] ==
                  if u == 0 && 1 <= v <= k then config.maxInterviewsPerInterviewer else old(capacities[u, v])
    {
      InterviewerId(candidates, interviewers, slots, k);
      var u := Lookup(nodes, "source").value;
      var v := Lookup(nodes, HashEntity("interviewer", interviewers[k].id)).value;
      capacities[u, v] := config.maxInterviewsPerInterviewer;
      k := k + 1;
    }
  }

  /** The slot `s` of a participant is in the catalogue, at some index. */
  lemma DeclaredInCatalogue(candidates: seq<Participant>, interviewers: seq<Participant>,
                            slots: seq<string>, p: Participant, s: string)
    requires forall t :: Declared(candidates, t) || Declared(interviewers, t) ==> t in slots
    requires (p in candidates || p in interviewers) && s in p.slots
    ensures exists x :: 0 <= x < |slots| && slots[x] == s
  {
    if p in candidates {
      var c :| 0 <= c < |candidates| && candidates[c] == p;
      assert Declared(candidates, s);
    } else {
      var c :| 0 <= c < |interviewers| && interviewers[c] == p;
      assert Declared(interviewers, s);
    }
  }

  /** Interviewers to slot filters: `capacities[interviewer][slot_filter(slot)] = 1` for each
      declared slot. */
  method InterviewersToSlotFilters(candidates: seq<Participant>, interviewers: seq<Participant>,
                                   slots: seq<string>, capacities: array2<int>, nodes: NodeMap,
                                   config: Config)
    requires Graph(candidates, interviewers, slots, capacities, nodes)
    modifies capacities
    ensures forall u, v :: 0 <= u < capacities.Length0 && 0 <= v < capacities.Length1 ==>
              capacities[u, v] ==
              if LayerOf(|interviewers|, |slots|, |candidates|, u) == 1
              then Overwrite(Capacity(candidates, interviewers, slots, config, u, v), old(capacities[u, v]))
              else old(capacities[u, v])
  {
    var ni, ns := |interviewers|, |slots|;
    var i := 0;
    while i < ni
      invariant 0 <= i <= ni
      invariant forall u, v :: 0 <= u < capacities.Length0 && 0 <= v < capacities.Length1 ==>
                  capacities[u, v] ==
                  if 1 <= u <= i && ni < v <= ni + ns && slots[v - 1 - ni] in interviewers[u - 1].slots
                  then 1 else old(capacities[u, v])
    {
      InterviewerToSlotFilters(candidates, interviewers, slots, capacities, nodes, i);
      i := i + 1;
    }
  }

  /** The inner loop of the interviewers phase, for the interviewer at index i. */
  method InterviewerToSlotFilters(candidates: seq<Participant>, interviewers: seq<Participant>,
                                  slots: seq<string>, capacities: array2<int>, nodes: NodeMap, i: int)
    requires Graph(candidates, interviewers, slots, capacities, nodes)
    requires 0 <= i < |interviewers|
    modifies capacities
    ensures forall u, v :: 0 <= u < capacities.Length0 && 0 <= v < capacities.Length1 ==>
              capacities[u, v] ==
              if u == 1 + i && |interviewers| < v <= |interviewers| + |slots| &&
                 slots[v - 1 - |interviewers|] in interviewers[i].slots
              then 1 else old(capacities[u, v])
  {
    var ni, ns := |interviewers|, |slots|;
    SlotsDistinct(candidates, interviewers, slots);
    var declared := interviewers[i].slots;
    var j := 0;
    while j < |declared|
      invariant 0 <= j <= |declared|
      invariant forall u, v :: 0 <= u < capacities.Length0 && 0 <= v < capacities.Length1 ==>
                  capacities[u, v] ==
                  if u == 1 + i && ni < v <= ni + ns && slots[v - 1 - ni] in declared[..j]
                  then 1 else old(capacities[u, v])
    {
      DeclaredInCatalogue(candidates, interviewers, slots, interviewers[i], declared[j]);
      ghost var x :| 0 <= x < ns && slots[x] == declared[j];
      InterviewerId(candidates, interviewers, slots, i);
      SlotFilterId(candidates, interviewers, slots, x);
      var u := Lookup(nodes, HashEntity("interviewer", interviewers[i].id)).value;
      var v := Lookup(nodes, HashEntity("slot_filter", declared[j])).value;
      capacities[u, v] := 1;
      forall a, b | 0 <= a < capacities.Length0 && 0 <= b < capacities.Length1
        ensures capacities[a, b] ==
                if a == 1 + i && ni < b <= ni + ns && slots[b - 1 - ni] in declared[..j + 1]
                then 1 else old(capacities[a, b])
      {
        assert declared[..j + 1] == declared[..j] + [declared[j]];
        if a == 1 + i && ni < b <= ni + ns && slots[b - 1 - ni] == declared[j] {
          assert b - 1 - ni == x;
        }
      }
      j := j + 1;
    }
    assert declared[..j] == declared;
  }

  /** Slot filters to slots and sink: `capacities[slot_filter][slot] = 1` and
      `capacities[slot_filter][sink] = interviewers_per_slot - 1`. */
  method SlotFiltersToSlotsAndSink(candidates: seq<Participant>, interviewers: seq<Participant>,
                                   slots: seq<string>, capacities: array2<int>, nodes: NodeMap,
                                   config: Config)
    requires Graph(candidates, interviewers, slots, capacities, nodes)
    modifies capacities
    ensures forall u, v :: 0 <= u < capacities.Length0 && 0 <= v < capacities.Length1 ==>
              capacities[u, v] ==
              if LayerOf(|interviewers|, |slots|, |candidates|, u) == 2
              then Overwrite(Capacity(candidates, interviewers, slots, config, u, v), old(capacities[u, v]))
              else old(capacities[u, v])
  {
    var ni, ns := |interviewers|, |slots|;
    var sink := ni + 2 * ns + |candidates| + 1;
    EndpointIds(candidates, interviewers, slots);
    var k := 0;
    while k < ns
      invariant 0 <= k <= ns
      invariant forall u, v :: 0 <= u < capacities.Length0 && 0 <= v < capacities.Length1 ==>
                  capacities[u, v] ==
                  if ni < u <= ni + k && v == u + ns then 1
                  else if ni < u <= ni + k && v == sink then config.interviewersPerSlot - 1
                  else old(capacities[u, v])
    {
      SlotFilterId(candidates, interviewers, slots, k);
      SlotId(candidates, interviewers, slots, k);
      var f := Lookup(nodes, HashEntity("slot_filter", slots[k])).value;
      var slot := Lookup(nodes, HashEntity("slot", slots[k])).value;
      capacities[f, slot] := 1;
      capacities[f, Lookup(nodes, "sink").value] := config.interviewersPerSlot - 1;
      k := k + 1;
    }
  }

  /** Slots to candidates: `capacities[slot][candidate] = 1` for each slot the candidate
      declared. */
  method SlotsToCandidates(candidates: seq<Participant>, interviewers: seq<Participant>,
                           slots: seq<string>, capacities: array2<int>, nodes: NodeMap,
                           config: Config)
    requires Graph(candidates, interviewers, slots, capacities, nodes)
    modifies capacities
    ensures forall u, v :: 0 <= u < capacities.Length0 && 0 <= v < capacities.Length1 ==>
              capacities[u, v] ==
              if LayerOf(|interviewers|, |slots|, |candidates|, u) == 3
              then Overwrite(Capacity(candidates, interviewers, slots, config, u, v), old(capacities[u, v]))
              else old(capacities[u, v])
  {
    var ni, ns := |interviewers|, |slots|;
    var base := ni + 2 * ns;
    var c := 0;
    while c < |candidates|
      invariant 0 <= c <= |candidates|
      invariant forall u, v :: 0 <= u < capacities.Length0 && 0 <= v < capacities.Length1 ==>
                  capacities[u, v] ==
                  if ni + ns < u <= base && base < v <= base + c &&
                     slots[u - 1 - ni - ns] in candidates[v - 1 - base].slots
                  then 1 else old(capacities[u, v])
    {
      SlotsToCandidate(candidates, interviewers, slots, capacities, nodes, c);
      c := c + 1;
    }
  }

  /** The inner loop of the slots phase, for the candidate at index c. */
  method SlotsToCandidate(candidates: seq<Participant>, interviewers: seq<Participant>,
                          slots: seq<string>, capacities: array2<int>, nodes: NodeMap, c: int)
    requires Graph(candidates, interviewers, slots, capacities, nodes)
    requires 0 <= c < |candidates|
    modifies capacities
    ensures forall u, v :: 0 <= u < capacities.Length0 && 0 <= v < capacities.Length1 ==>
              capacities[u, v] ==
              if |interviewers| + |slots| < u <= |interviewers| + 2 * |slots| &&
                 v == 1 + |interviewers| + 2 * |slots| + c &&
                 slots[u - 1 - |interviewers| - |slots|] in candidates[c].slots
              then 1 else old(capacities[u, v])
  {
    var ni, ns := |interviewers|, |slots|;
    var base := ni + 2 * ns;
    SlotsDistinct(candidates, interviewers, slots);
    var declared := candidates[c].slots;
    var j := 0;
    while j < |declared|
      invariant 0 <= j <= |declared|
      invariant forall u, v :: 0 <= u < capacities.Length0 && 0 <= v < capacities.Length1 ==>
                  capacities[u, v] ==
                  if ni + ns < u <= base && v == 1 + base + c && slots[u - 1 - ni - ns] in declared[..j]
                  then 1 else old(capacities[u, v])
    {
      DeclaredInCatalogue(candidates, interviewers, slots, candidates[c], declared[j]);
      ghost var x :| 0 <= x < ns && slots[x] == declared[j];
      SlotId(candidates, interviewers, slots, x);
      CandidateId(candidates, interviewers, slots, c);
      var u := Lookup(nodes, HashEntity("slot", declared[j])).value;
      var v := Lookup(nodes, HashEntity("candidate", candidates[c].id)).value;
      capacities[u, v] := 1;
      forall a, b | 0 <= a < capacities.Length0 && 0 <= b < capacities.Length1
        ensures capacities[a, b] ==
                if ni + ns < a <= base && b == 1 + base + c && slots[a - 1 - ni - ns] in declared[..j + 1]
                then 1 else old(capacities[a, b])
      {
        assert declared[..j + 1] == declared[..j] + [declared[j]];
        if ni + ns < a <= base && b == 1 + base + c && slots[a - 1 - ni - ns] == declared[j] {
          assert a - 1 - ni - ns == x;
        }
      }
      j := j + 1;
    }
    assert declared[..j] == declared;
  }

  /** Candidates to sink: `capacities[candidate][sink] = 1`. */
  method CandidatesToSink(candidates: seq<Participant>, interviewers: seq<Participant>,
                          slots: seq<string>, capacities: array2<int>, nodes: NodeMap,
                          config: Config)
    requires Graph(candidates, interviewers, slots, capacities, nodes)
    modifies capacities
    ensures forall u, v :: 0 <= u < capacities.Length0 && 0 <= v < capacities.Length1 ==>
              capacities[u, v] ==
              if LayerOf(|interviewers|, |slots|, |candidates|, u) == 4
              then Overwrite(Capacity(candidates, interviewers, slots, config, u, v), old(capacities[u, v]))
              else old(capacities[u, v])
  {
    var base := |interviewers| + 2 * |slots|;
    var sink := base + |candidates| + 1;
    EndpointIds(candidates, interviewers, slots);
    var c := 0;
    while c < |candidates|
      invariant 0 <= c <= |candidates|
      invariant forall u, v :: 0 <= u < capacities.Length0 && 0 <= v < capacities.Length1 ==>
                  capacities[u, v] ==
                  if base < u <= base + c && v == sink then 1 else old(capacities[u, v])
    {
      CandidateId(candidates, interviewers, slots, c);
      var u := Lookup(nodes, HashEntity("candidate", candidates[c].id)).value;
      capacities[u, Lookup(nodes, "sink").value] := 1;
      c := c + 1;
    }
  }

  // ---------------------------------------------------------------------------------
  // pruneCapacitiesGraph

  /** How many times the participants of `ps` declared slot `s`; a slot listed twice by one
      participant counts twice, as the `++` counter does. */
  function Declarations(ps: seq<Participant>, s: string): (r: nat)
    ensures r > 0 <==> Declared(ps, s)
  {
    if ps == [] then 0
    else
      var init := ps[..|ps| - 1];
      DeclaredSnoc(init, ps[|ps| - 1], s);
      assert ps == init + [ps[|ps| - 1]];
      Declarations(init, s) + multiset(ps[|ps| - 1].slots)[s]
  }

  lemma DeclaredSnoc(ps: seq<Participant>, p: Participant, s: string)
    ensures Declared(ps + [p], s) <==> Declared(ps, s) || s in p.slots
  {
    if Declared(ps, s) {
      var k :| 0 <= k < |ps| && s in ps[k].slots;
      assert (ps + [p])[k] == ps[k];
    }
    if s in p.slots {
      assert (ps + [p])[|ps|] == p;
    }
    if Declared(ps + [p], s) && s !in p.slots {
      var k :| 0 <= k < |ps| + 1 && s in (ps + [p])[k].slots;
      assert k < |ps| && ps[k] == (ps + [p])[k];
    }
  }

  lemma DeclarationsSnoc(ps: seq<Participant>, p: Participant, s: string)
    ensures Declarations(ps + [p], s) == Declarations(ps, s) + multiset(p.slots)[s]
  {
    assert (ps + [p])[..|ps|] == ps;
  }

  /** The `num_interviewers_per_slot` dictionary: a key for every slot some interviewer
      declared, holding the number of declarations. */
  method CountDeclarations(interviewers: seq<Participant>) returns (counts: map<string, int>)
    ensures forall s :: s in counts <==> Declared(interviewers, s)
    ensures forall s :: s in counts ==> counts[s] == Declarations(interviewers, s)
  {
    counts := map[];
    var i := 0;
    while i < |interviewers|
      invariant 0 <= i <= |interviewers|
      invariant forall s :: s in counts <==> Declared(interviewers[..i], s)
      invariant forall s :: s in counts ==> counts[s] == Declarations(interviewers[..i], s)
    {
      var declared := interviewers[i].slots;
      var next := CountSlots(counts, declared);
      assert interviewers[..i + 1] == interviewers[..i] + [interviewers[i]];
      forall s
        ensures Declared(interviewers[..i + 1], s) <==> Declared(interviewers[..i], s) || s in declared
        ensures Declarations(interviewers[..i + 1], s) == Declarations(interviewers[..i], s) + multiset(declared)[s]
      {
        DeclaredSnoc(interviewers[..i], interviewers[i], s);
        DeclarationsSnoc(interviewers[..i], interviewers[i], s);
      }
      counts := next;
      i := i + 1;
    }
    assert interviewers[..i] == interviewers;
  }

  /** The inner `forEach` over one interviewer's slots: each declaration adds a key at 0
      when it is missing, then adds one to it. */
  method CountSlots(counts: map<string, int>, declared: seq<string>) returns (r: map<string, int>)
    ensures forall s :: s in r <==> s in counts || s in declared
    ensures forall s :: s in r ==> r[s] == (if s in counts then counts[s] else 0) + multiset(declared)[s]
  {
    r := counts;
    var j := 0;
    while j < |declared|
      invariant 0 <= j <= |declared|
      invariant forall s :: s in r <==> s in counts || s in declared[..j]
      invariant forall s :: s in r ==> r[s] == (if s in counts then counts[s] else 0) + multiset(declared[..j])[s]
    {
      var slot := declared[j];
      if slot !in r {
        r := r[slot := 0];
      }
      r := r[slot := r[slot] + 1];
      assert declared[..j + 1] == declared[..j] + [slot];
      j := j + 1;
    }
    assert declared[..j] == declared;
  }

  /** The slot-filter node v is pruned: its slot was declared by some interviewer, but by
      fewer than `interviewers_per_slot` of them. */
  predicate Pruned(interviewers: seq<Participant>, slots: seq<string>, config: Config, v: int)
  {
    |interviewers| < v <= |interviewers| + |slots| &&
    0 < Declarations(interviewers, slots[v - 1 - |interviewers|]) < config.interviewersPerSlot
  }

  /** `for (i = 0; i < capacities.length; ++i) capacities[i][f] = 0`. */
  method ZeroColumn(capacities: array2<int>, f: int)
    requires 0 <= f < capacities.Length1
    modifies capacities
    ensures forall u, v :: 0 <= u < capacities.Length0 && 0 <= v < capacities.Length1 ==>
              capacities[u, v] == if v == f then 0 else old(capacities[u, v])
  {
    var i := 0;
    while i < capacities.Length0
      invariant 0 <= i <= capacities.Length0
      invariant forall u, v :: 0 <= u < capacities.Length0 && 0 <= v < capacities.Length1 ==>
                  capacities[u, v] == if v == f && u < i then 0 else old(capacities[u, v])
    {
      capacities[i, f] := 0;
      i := i + 1;
    }
  }

  /** pruneCapacitiesGraph: the column of every pruned slot-filter is zeroed, and nothing
      else changes. The dictionary's entries are visited in no particular order: zeroing
      columns commutes. */
  method PruneCapacitiesGraph(interviewers: seq<Participant>, capacities: array2<int>, nodes: NodeMap,
                              config: Config, ghost candidates: seq<Participant>, ghost slots: seq<string>)
    requires Graph(candidates, interviewers, slots, capacities, nodes)
    modifies capacities
    ensures forall u, v :: 0 <= u < capacities.Length0 && 0 <= v < capacities.Length1 ==>
              capacities[u, v] == if Pruned(interviewers, slots, config, v) then 0 else old(capacities[u, v])
  {
    ghost var ni := |interviewers|;
    var counts := CountDeclarations(interviewers);
    var pending := counts.Keys;
    while pending != {}
      invariant pending <= counts.Keys
      invariant forall u, v :: 0 <= u < capacities.Length0 && 0 <= v < capacities.Length1 ==>
                  capacities[u, v] ==
                  if Pruned(interviewers, slots, config, v) && slots[v - 1 - ni] !in pending then 0
                  else old(capacities[u, v])
      decreases |pending|
    {
      var slot :| slot in pending;
      PruneSlot(interviewers, capacities, nodes, config, candidates, slots, slot, counts[slot]);
      PrunedStep(interviewers, slots, config, slot, pending);
      pending := pending - {slot};
    }
  }

  /** Pruning is idempotent: a second pruning of the same graph leaves the matrix exactly
      as the first one left it. */
  method PruneTwice(interviewers: seq<Participant>, capacities: array2<int>, nodes: NodeMap,
                    config: Config, ghost candidates: seq<Participant>, ghost slots: seq<string>)
    requires Graph(candidates, interviewers, slots, capacities, nodes)
    modifies capacities
    ensures forall u, v :: 0 <= u < capacities.Length0 && 0 <= v < capacities.Length1 ==>
              capacities[u, v] == if Pruned(interviewers, slots, config, v) then 0 else old(capacities[u, v])
  {
    PruneCapacitiesGraph(interviewers, capacities, nodes, config, candidates, slots);
    PruneCapacitiesGraph(interviewers, capacities, nodes, config, candidates, slots);
  }

  /** After the entry for `slot`, the filters zeroed so far are the pruned ones whose slot
      is no longer pending. */
  lemma PrunedStep(interviewers: seq<Participant>, slots: seq<string>, config: Config, slot: string,
                   pending: set<string>)
    requires Declared(interviewers, slot)
    ensures forall v :: (Pruned(interviewers, slots, config, v) && slots[v - 1 - |interviewers|] !in pending - {slot}) <==>
                        ((|interviewers| < v <= |interviewers| + |slots| && slots[v - 1 - |interviewers|] == slot &&
                          Declarations(interviewers, slot) < config.interviewersPerSlot) ||
                         (Pruned(interviewers, slots, config, v) && slots[v - 1 - |interviewers|] !in pending))
  {
  }

  /** One entry of the dictionary: when `count` is below `interviewers_per_slot`, the column
      of the slot's filter is zeroed. */
  method PruneSlot(interviewers: seq<Participant>, capacities: array2<int>, nodes: NodeMap, config: Config,
                   ghost candidates: seq<Participant>, ghost slots: seq<string>, slot: string, count: int)
    requires Graph(candidates, interviewers, slots, capacities, nodes)
    requires Declared(interviewers, slot) && count == Declarations(interviewers, slot)
    modifies capacities
    ensures forall u, v :: 0 <= u < capacities.Length0 && 0 <= v < capacities.Length1 ==>
              capacities[u, v] ==
              if |interviewers| < v <= |interviewers| + |slots| && slots[v - 1 - |interviewers|] == slot &&
                 count < config.interviewersPerSlot
              then 0 else old(capacities[u, v])
  {
    ghost var ni, ns := |interviewers|, |slots|;
    if count < config.interviewersPerSlot {
      SlotsDistinct(candidates, interviewers, slots);
      ghost var k :| 0 <= k < ni && slot in interviewers[k].slots;
      DeclaredInCatalogue(candidates, interviewers, slots, interviewers[k], slot);
      ghost var x :| 0 <= x < ns && slots[x] == slot;
      SlotFilterId(candidates, interviewers, slots, x);
      var f := Lookup(nodes, HashEntity("slot_filter", slot)).value;
      ZeroColumn(capacities, f);
      forall a, b | 0 <= a < capacities.Length0 && 0 <= b < capacities.Length1
        ensures capacities[a, b] ==
                if ni < b <= ni + ns && slots[b - 1 - ni] == slot then 0 else old(capacities[a, b])
      {
        if ni < b <= ni + ns && slots[b - 1 - ni] == slot {
          assert b - 1 - ni == x;
        }
      }
    }
  }

  // ---------------------------------------------------------------------------------
  // buildMatchesFromFlows

  lemma AscendingCons(x: int, s: seq<int>)
    requires FF.Ascending(s) && forall k :: 0 <= k < |s| ==> x < s[k]
    ensures FF.Ascending([x] + s)
  {
    forall i, j | 0 <= i < j < |s| + 1
      ensures ([x] + s)[i] < ([x] + s)[j]
    {
      if i > 0 {
        assert ([x] + s)[i] == s[i - 1];
      }
      assert ([x] + s)[j] == s[j - 1];
    }
  }

  /** The filters among `filters`, in the order given, whose edges to the sink (the last
      node) and to their slot (`size` ids further on) together carry `target` units. */
  function CompleteAmong(flows: Matrix, filters: seq<int>, size: nat, target: int): (r: seq<int>)
    requires IsSquare(flows, |flows|)
    requires forall f :: f in filters ==> 0 <= f && f + size < |flows|
    ensures forall f :: f in r <==> f in filters && flows[f][|flows| - 1] + flows[f][f + size] == target
    ensures FF.Ascending(filters) ==> FF.Ascending(r)
    decreases |filters|
  {
    if filters == [] then []
    else
      var f := filters[0];
      assert f in filters;
      assert forall g :: g in filters <==> g == f || g in filters[1..] by {
        assert filters == [f] + filters[1..];
      }
      var rest := CompleteAmong(flows, filters[1..], size, target);
      assert FF.Ascending(filters) ==> FF.Ascending([f] + rest) by {
        if FF.Ascending(filters) {
          forall k | 0 <= k < |rest|
            ensures f < rest[k]
          {
            assert rest[k] in rest;
            var j :| 0 <= j < |filters[1..]| && filters[1..][j] == rest[k];
            assert filters[j + 1] == rest[k];
          }
          AscendingCons(f, rest);
        }
      }
      if flows[f][|flows| - 1] + flows[f][f + size] == target then [f] + rest else rest
  }

  /** The nodes among `ids`, in the order given, with one unit of flow into node `f`. */
  function WithFlowInto(flows: Matrix, ids: seq<int>, f: int): (r: seq<int>)
    requires IsSquare(flows, |flows|) && 0 <= f < |flows|
    requires forall i :: i in ids ==> 0 <= i < |flows|
    ensures forall i :: i in r <==> i in ids && flows[i][f] == 1
    ensures FF.Ascending(ids) ==> FF.Ascending(r)
    decreases |ids|
  {
    if ids == [] then []
    else
      var i := ids[0];
      assert i in ids;
      assert forall g :: g in ids <==> g == i || g in ids[1..] by {
        assert ids == [i] + ids[1..];
      }
      var rest := WithFlowInto(flows, ids[1..], f);
      assert FF.Ascending(ids) ==> FF.Ascending([i] + rest) by {
        if FF.Ascending(ids) {
          forall k | 0 <= k < |rest|
            ensures i < rest[k]
          {
            assert rest[k] in rest;
            var j :| 0 <= j < |ids[1..]| && ids[1..][j] == rest[k];
            assert ids[j + 1] == rest[k];
          }
          AscendingCons(i, rest);
        }
      }
      if flows[i][f] == 1 then [i] + rest else rest
  }

  /** The nodes among `ids`, in the order given, that receive one unit of flow from node
      `s`. */
  function WithFlowFrom(flows: Matrix, s: int, ids: seq<int>): (r: seq<int>)
    requires IsSquare(flows, |flows|) && 0 <= s < |flows|
    requires forall i :: i in ids ==> 0 <= i < |flows|
    ensures forall c :: c in r <==> c in ids && flows[s][c] == 1
    decreases |ids|
  {
    if ids == [] then []
    else
      assert ids[0] in ids;
      assert forall g :: g in ids <==> g == ids[0] || g in ids[1..] by {
        assert ids == [ids[0]] + ids[1..];
      }
      (if flows[s][ids[0]] == 1 then [ids[0]] else []) + WithFlowFrom(flows, s, ids[1..])
  }

  /** The candidate a record ends up with: the loop over `ids` overwrites the candidate at
      every node with one unit of flow from `s`, so the last such node wins. */
  function LastWithFlow(flows: Matrix, s: int, ids: seq<int>): (r: Option<int>)
    requires IsSquare(flows, |flows|) && 0 <= s < |flows|
    requires forall i :: i in ids ==> 0 <= i < |flows|
    ensures r.None? <==> forall c :: c in ids ==> flows[s][c] != 1
    ensures r.Some? ==> r.value in ids && flows[s][r.value] == 1
    decreases |ids|
  {
    if ids == [] then None
    else
      var c := ids[|ids| - 1];
      assert c in ids;
      var init := ids[..|ids| - 1];
      assert forall g :: g in ids <==> g == c || g in init by {
        assert ids == init + [c];
      }
      if flows[s][c] == 1 then Some(c) else LastWithFlow(flows, s, init)
  }

  /** No node after the one LastWithFlow picks has a unit of flow from `s`. */
  lemma {:induction false} LastWithFlowIsLast(flows: Matrix, s: int, ids: seq<int>)
    requires IsSquare(flows, |flows|) && 0 <= s < |flows|
    requires forall i :: i in ids ==> 0 <= i < |flows|
    requires forall k :: 0 <= k < |ids| ==> 0 <= ids[k] < |flows|
    ensures var r := LastWithFlow(flows, s, ids);
            r.Some? ==> exists k :: 0 <= k < |ids| && ids[k] == r.value &&
                                    forall j :: k < j < |ids| ==> flows[s][ids[j]] != 1
    decreases |ids|
  {
    if ids != [] {
      var c := ids[|ids| - 1];
      var init := ids[..|ids| - 1];
      assert forall g :: g in init ==> g in ids;
      if flows[s][c] != 1 {
        var r := LastWithFlow(flows, s, init);
        assert forall k :: 0 <= k < |init| ==> init[k] == ids[k];
        LastWithFlowIsLast(flows, s, init);
        if r.Some? {
          var k :| 0 <= k < |init| && init[k] == r.value &&
                   forall j :: k < j < |init| ==> flows[s][init[j]] != 1;
          assert ids[k] == r.value;
          forall j | k < j < |ids|
            ensures flows[s][ids[j]] != 1
          {
            if j < |init| {
              assert ids[j] == init[j];
            }
          }
        }
      }
    }
  }

  /** The TypeError of reading a name the reverse map does not have
      (`undefined.includes(...)`). */
  const UndefinedName: string := "Cannot read properties of undefined (reading 'includes')"

  /** `dehashEntity(kind, graph_reverse_nodes_map[id])`. */
  function Decode(nodes: NodeMap, kind: string, id: int): (r: Result<string>)
    ensures r.Err? ==> r.error == Plain(UndefinedName) || r.error == Plain("Invalid hash type")
  {
    match NameOf(nodes, id)
    case None => Err(Plain(UndefinedName))
    case Some(h) => DehashEntity(kind, h)
  }

  /** Decodes `ids` in order and stops at the first failure. */
  function DecodeAll(nodes: NodeMap, kind: string, ids: seq<int>): (r: Result<seq<string>>)
    ensures r.Ok? <==> forall k :: 0 <= k < |ids| ==> Decode(nodes, kind, ids[k]).Ok?
    ensures r.Ok? ==> |r.value| == |ids| &&
                      forall k :: 0 <= k < |ids| ==> Decode(nodes, kind, ids[k]) == Ok(r.value[k])
    ensures r.Err? ==> exists k :: 0 <= k < |ids| && Decode(nodes, kind, ids[k]) == Err(r.error) &&
                                   forall j :: 0 <= j < k ==> Decode(nodes, kind, ids[j]).Ok?
    decreases |ids|
  {
    if ids == [] then Ok([])
    else
      var d := Decode(nodes, kind, ids[0]);
      if d.Err? then Err(d.error)
      else
        var rest := DecodeAll(nodes, kind, ids[1..]);
        assert forall k :: 1 <= k < |ids| ==> ids[k] == ids[1..][k - 1];
        if rest.Err? then
          assert exists k :: 0 <= k < |ids| && Decode(nodes, kind, ids[k]) == Err(rest.error) &&
                             forall j :: 0 <= j < k ==> Decode(nodes, kind, ids[j]).Ok? by {
            var k :| 0 <= k < |ids[1..]| && Decode(nodes, kind, ids[1..][k]) == Err(rest.error) &&
                     forall j :: 0 <= j < k ==> Decode(nodes, kind, ids[1..][j]).Ok?;
            assert forall j :: 1 <= j < k + 1 ==> Decode(nodes, kind, ids[j]).Ok? by {
              forall j | 1 <= j < k + 1
                ensures Decode(nodes, kind, ids[j]).Ok?
              {
                assert ids[j] == ids[1..][j - 1];
              }
            }
          }
          Err(rest.error)
        else
          Ok([d.value] + rest.value)
  }

  /** The decoded name of node `id`, for nodes known to decode. */
  function Name(nodes: NodeMap, kind: string, id: int): string
  {
    match Decode(nodes, kind, id)
    case Ok(n) => n
    case Err(_) => ""
  }

  function Names(nodes: NodeMap, kind: string, ids: seq<int>): (r: seq<string>)
    ensures |r| == |ids| && forall k :: 0 <= k < |ids| ==> r[k] == Name(nodes, kind, ids[k])
  {
    seq(|ids|, k requires 0 <= k < |ids| => Name(nodes, kind, ids[k]))
  }

  /** The second loop decodes every node with one unit of flow out of the slot of each
      complete filter, filter by filter. */
  function CandidateScan(flows: Matrix, complete: seq<int>, candidates: seq<int>, size: nat): (r: seq<int>)
    requires IsSquare(flows, |flows|)
    requires forall f :: f in complete ==> 0 <= f && f + size < |flows|
    requires forall c :: c in candidates ==> 0 <= c < |flows|
    ensures forall c :: c in r ==> c in candidates
    decreases |complete|
  {
    if complete == [] then []
    else
      assert complete[0] in complete;
      assert forall g :: g in complete[1..] ==> g in complete;
      WithFlowFrom(flows, complete[0] + size, candidates) + CandidateScan(flows, complete[1..], candidates, size)
  }

  /** The third loop decodes interviewer i once per complete filter it sends a unit to;
      the repeats decode the same name, so the interviewers with at least one such filter,
      in order, fail or succeed as the loop does. */
  function InterviewerScan(flows: Matrix, interviewers: seq<int>, complete: seq<int>): (r: seq<int>)
    requires IsSquare(flows, |flows|)
    requires forall i :: i in interviewers ==> 0 <= i < |flows|
    requires forall f :: f in complete ==> 0 <= f < |flows|
    ensures forall i :: i in r <==> i in interviewers && exists f :: f in complete && flows[i][f] == 1
    decreases |interviewers|
  {
    if interviewers == [] then []
    else
      var i := interviewers[0];
      assert i in interviewers;
      assert forall g :: g in interviewers <==> g == i || g in interviewers[1..] by {
        assert interviewers == [i] + interviewers[1..];
      }
      (if exists f :: f in complete && flows[i][f] == 1 then [i] else []) +
      InterviewerScan(flows, interviewers[1..], complete)
  }

  /** Every id of `graph_info` is an inner node of the matrix. */
  lemma InfoMembers(info: FF.GraphInfo, n: int)
    requires FF.InfoFits(info, n)
    ensures forall v :: (v in info.interviewers || v in info.slotFilters || v in info.slots ||
                         v in info.candidates) ==> 1 <= v < n - 1
  {
    forall v | v in info.interviewers || v in info.slotFilters || v in info.slots || v in info.candidates
      ensures 1 <= v < n - 1
    {
      if v in info.interviewers {
        FF.MemberWithin(info.interviewers, v, 1, n - 1);
      } else if v in info.slotFilters {
        FF.MemberWithin(info.slotFilters, v, 1, n - 1);
      } else if v in info.slots {
        FF.MemberWithin(info.slots, v, 1, n - 1);
      } else {
        FF.MemberWithin(info.candidates, v, 1, n - 1);
      }
    }
  }

  /** The record of complete filter `f`: its slot, the interviewers sending it a unit, in
      id order, and the last candidate receiving a unit from its slot, if any. */
  function Record(flows: Matrix, nodes: NodeMap, info: FF.GraphInfo, f: int): MatchRecord
    requires IsSquare(flows, |flows|) && FF.InfoFits(info, |flows|) && f in info.slotFilters
  {
    var size := |info.slotFilters|;
    InfoMembers(info, |flows|);
    MatchRecord(
      Name(nodes, "slot_filter", f),
      Names(nodes, "interviewer", WithFlowInto(flows, info.interviewers, f)),
      match LastWithFlow(flows, f + size, info.candidates)
      case None => None
      case Some(c) => Some(Name(nodes, "candidate", c)))
  }

  /** buildMatchesFromFlows: one record per complete slot-filter, in filter order, after
      decoding every name the three loops decode, in their order; the first failure is
      thrown. */
  function BuildMatchesFromFlows(flows: Matrix, nodes: NodeMap, info: FF.GraphInfo, config: Config)
    : (r: Result<seq<MatchRecord>>)
    requires IsSquare(flows, |flows|) && FF.InfoFits(info, |flows|)
    ensures var complete := CompleteAmong(flows, info.slotFilters, |info.slotFilters|, config.interviewersPerSlot);
            r.Ok? ==> |r.value| == |complete| &&
                      forall k :: 0 <= k < |complete| ==> r.value[k] == Record(flows, nodes, info, complete[k])
    ensures r.Err? ==> r.error == Plain(UndefinedName) || r.error == Plain("Invalid hash type")
  {
    var size := |info.slotFilters|;
    InfoMembers(info, |flows|);
    var complete := CompleteAmong(flows, info.slotFilters, size, config.interviewersPerSlot);
    var slotNames := DecodeAll(nodes, "slot_filter", complete);
    if slotNames.Err? then Err(slotNames.error)
    else
      var candidateNames := DecodeAll(nodes, "candidate", CandidateScan(flows, complete, info.candidates, size));
      if candidateNames.Err? then Err(candidateNames.error)
      else
        var interviewerNames := DecodeAll(nodes, "interviewer", InterviewerScan(flows, info.interviewers, complete));
        if interviewerNames.Err? then Err(interviewerNames.error)
        else Ok(seq(|complete|, k requires 0 <= k < |complete| => Record(flows, nodes, info, complete[k])))
  }

  // ---------------------------------------------------------------------------------
  // Decoding the layout

  lemma InterviewerName(candidates: seq<Participant>, interviewers: seq<Participant>, slots: seq<string>, k: int)
    requires DistinctKeys(candidates, interviewers, slots) && 0 <= k < |interviewers|
    ensures Decode(NodesMap(candidates, interviewers, slots), "interviewer", 1 + k) == Ok(interviewers[k].id)
  {
    LayerKeys(candidates, interviewers, slots, 1 + k);
    KeyAt(candidates, interviewers, slots, 1 + k);
    HashRoundTrip("interviewer", interviewers[k].id);
  }

  lemma SlotFilterName(candidates: seq<Participant>, interviewers: seq<Participant>, slots: seq<string>, k: int)
    requires DistinctKeys(candidates, interviewers, slots) && 0 <= k < |slots|
    ensures Decode(NodesMap(candidates, interviewers, slots), "slot_filter", 1 + |interviewers| + k) == Ok(slots[k])
  {
    LayerKeys(candidates, interviewers, slots, 1 + |interviewers| + k);
    KeyAt(candidates, interviewers, slots, 1 + |interviewers| + k);
    HashRoundTrip("slot_filter", slots[k]);
  }

  lemma SlotFilterNameAt(candidates: seq<Participant>, interviewers: seq<Participant>, slots: seq<string>, f: int)
    requires DistinctKeys(candidates, interviewers, slots) && |interviewers| < f <= |interviewers| + |slots|
    ensures Decode(NodesMap(candidates, interviewers, slots), "slot_filter", f) == Ok(slots[f - 1 - |interviewers|])
  {
    SlotFilterName(candidates, interviewers, slots, f - 1 - |interviewers|);
  }

  lemma CandidateName(candidates: seq<Participant>, interviewers: seq<Participant>, slots: seq<string>, k: int)
    requires DistinctKeys(candidates, interviewers, slots) && 0 <= k < |candidates|
    ensures Decode(NodesMap(candidates, interviewers, slots), "candidate", 1 + |interviewers| + 2 * |slots| + k) ==
            Ok(candidates[k].id)
  {
    LayerKeys(candidates, interviewers, slots, 1 + |interviewers| + 2 * |slots| + k);
    KeyAt(candidates, interviewers, slots, 1 + |interviewers| + 2 * |slots| + k);
    HashRoundTrip("candidate", candidates[k].id);
  }

  /** Distinct keys imply distinct interviewer ids. */
  lemma InterviewersDistinct(candidates: seq<Participant>, interviewers: seq<Participant>, slots: seq<string>)
    requires DistinctKeys(candidates, interviewers, slots)
    ensures forall x, y :: 0 <= x < y < |interviewers| ==> interviewers[x].id != interviewers[y].id
  {
    var a := Assignments(candidates, interviewers, slots);
    forall x, y | 0 <= x < y < |interviewers|
      ensures interviewers[x].id != interviewers[y].id
    {
      LayerKeys(candidates, interviewers, slots, 1 + x);
      LayerKeys(candidates, interviewers, slots, 1 + y);
      assert a[1 + x].0 != a[1 + y].0;
    }
  }

  // ---------------------------------------------------------------------------------
  // The capacities match hands to the solver

  /** The capacity of edge (u, v) once populateCapacitiesGraph and pruneCapacitiesGraph
      have run on the all-zero matrix. */
  function CapacityOf(candidates: seq<Participant>, interviewers: seq<Participant>, slots: seq<string>,
                      config: Config, u: int, v: int): int
  {
    if Pruned(interviewers, slots, config, v) then 0
    else Overwrite(Capacity(candidates, interviewers, slots, config, u, v), 0)
  }

  ghost predicate Capacities(c: Matrix, candidates: seq<Participant>, interviewers: seq<Participant>,
                             slots: seq<string>, config: Config)
  {
    var n := |interviewers| + 2 * |slots| + |candidates| + 2;
    IsSquare(c, n) &&
    forall u, v {:trigger CapacityOf(candidates, interviewers, slots, config, u, v)} ::
      0 <= u < n && 0 <= v < n ==> c[u][v] == CapacityOf(candidates, interviewers, slots, config, u, v)
  }

  /** No capacity is negative when at least one interviewer is needed per slot and the
      interview cap is not negative. */
  lemma CapacityNonNegative(candidates: seq<Participant>, interviewers: seq<Participant>, slots: seq<string>,
                            config: Config, u: int, v: int)
    requires config.interviewersPerSlot >= 1 && config.maxInterviewsPerInterviewer >= 0
    ensures CapacityOf(candidates, interviewers, slots, config, u, v) >= 0
  {
  }

  /** Only the interviewers who declared its slot may send a unit into a slot-filter, and
      none may when the filter is pruned. */
  lemma IntoFilter(candidates: seq<Participant>, interviewers: seq<Participant>, slots: seq<string>,
                   config: Config, u: int, f: int)
    requires |interviewers| < f <= |interviewers| + |slots|
    requires CapacityOf(candidates, interviewers, slots, config, u, f) > 0
    ensures 1 <= u <= |interviewers| && !Pruned(interviewers, slots, config, f)
    ensures slots[f - 1 - |interviewers|] in interviewers[u - 1].slots
    ensures CapacityOf(candidates, interviewers, slots, config, u, f) == 1
  {
  }

  /** A slot-filter sends only to its slot and to the sink. */
  lemma OutOfFilter(candidates: seq<Participant>, interviewers: seq<Participant>, slots: seq<string>,
                    config: Config, f: int, v: int)
    requires |interviewers| < f <= |interviewers| + |slots|
    requires CapacityOf(candidates, interviewers, slots, config, f, v) > 0
    ensures v == f + |slots| || v == |interviewers| + 2 * |slots| + |candidates| + 1
  {
  }

  /** A slot receives only from its own filter. */
  lemma IntoSlot(candidates: seq<Participant>, interviewers: seq<Participant>, slots: seq<string>,
                 config: Config, u: int, s: int)
    requires |interviewers| + |slots| < s <= |interviewers| + 2 * |slots|
    requires CapacityOf(candidates, interviewers, slots, config, u, s) > 0
    ensures u == s - |slots|
  {
  }

  /** A slot sends only to the candidates who declared it, one unit each. */
  lemma OutOfSlot(candidates: seq<Participant>, interviewers: seq<Participant>, slots: seq<string>,
                  config: Config, s: int, v: int)
    requires |interviewers| + |slots| < s <= |interviewers| + 2 * |slots|
    requires CapacityOf(candidates, interviewers, slots, config, s, v) > 0
    ensures |interviewers| + 2 * |slots| < v <= |interviewers| + 2 * |slots| + |candidates|
    ensures slots[s - 1 - |interviewers| - |slots|] in candidates[v - 1 - |interviewers| - 2 * |slots|].slots
    ensures CapacityOf(candidates, interviewers, slots, config, s, v) == 1
  {
  }

  // ---------------------------------------------------------------------------------
  // What a flow within these capacities looks like around a slot

  /** A row block whose entries are the negated 0/1 flows from `ids` into `f` sums to minus
      the number of those nodes that send a unit. */
  lemma {:induction false} FlowIntoCount(flows: Matrix, ids: seq<int>, f: int, row: seq<int>)
    requires IsSquare(flows, |flows|) && 0 <= f < |flows|
    requires forall i :: i in ids ==> 0 <= i < |flows|
    requires forall k :: 0 <= k < |ids| ==> 0 <= ids[k] < |flows|
    requires |row| == |ids|
    requires forall k :: 0 <= k < |ids| ==> row[k] == -flows[ids[k]][f] && 0 <= flows[ids[k]][f] <= 1
    ensures Sum(row) == -|WithFlowInto(flows, ids, f)|
    decreases |ids|
  {
    if ids != [] {
      assert forall i :: i in ids[1..] ==> i in ids;
      FlowIntoCount(flows, ids[1..], f, row[1..]);
    }
  }

  /** A row of 0/1 entries with a positive sum has an entry 1. */
  lemma {:induction false} SomeUnit(row: seq<int>)
    requires |row| > 0 && Sum(row) >= 1
    requires forall k :: 0 <= k < |row| ==> 0 <= row[k] <= 1
    ensures exists k :: 0 <= k < |row| && row[k] == 1
    decreases |row|
  {
    if row[0] != 1 {
      SomeUnit(row[1..]);
      var k :| 0 <= k < |row[1..]| && row[1..][k] == 1;
      assert row[k + 1] == 1;
    }
  }

  /** The row of a slot-filter f carries flow only on its interviewer columns, its slot
      and the sink, and at most one unit from each interviewer. */
  lemma FilterRow(flows: Matrix, c: Matrix, candidates: seq<Participant>, interviewers: seq<Participant>,
                  slots: seq<string>, config: Config, f: int)
    requires Capacities(c, candidates, interviewers, slots, config)
    requires FlowInvariants(flows, c, 0, |c| - 1)
    requires |interviewers| < f <= |interviewers| + |slots|
    ensures forall i :: 1 <= i <= |interviewers| ==> 0 <= flows[i][f] <= 1
    ensures flows[f][0] == 0
    ensures forall u :: 1 + |interviewers| <= u < |c| && u != f + |slots| && u != |c| - 1 ==>
              flows[f][u] == 0
  {
    var ni, ns := |interviewers|, |slots|;
    var n := |c|;
    forall i | 1 <= i <= ni
      ensures 0 <= flows[i][f] <= 1
    {
      if c[i][f] > 0 {
        IntoFilter(candidates, interviewers, slots, config, i, f);
      }
      if c[f][i] > 0 {
        OutOfFilter(candidates, interviewers, slots, config, f, i);
      }
    }
    forall u | 1 + ni <= u < n && u != f + ns && u != n - 1
      ensures flows[f][u] == 0
    {
      if c[f][u] > 0 {
        OutOfFilter(candidates, interviewers, slots, config, f, u);
      }
      if c[u][f] > 0 {
        IntoFilter(candidates, interviewers, slots, config, u, f);
      }
    }
    if c[0][f] > 0 {
      IntoFilter(candidates, interviewers, slots, config, 0, f);
    }
    if c[f][0] > 0 {
      OutOfFilter(candidates, interviewers, slots, config, f, 0);
    }
  }

  /** A row that is zero at 0 and beyond `m` except at `a` and `b` sums to its entries
      1..m plus those two. */
  lemma RowSum(row: seq<int>, m: nat, a: int, b: int)
    requires 1 + m <= a < b < |row| && row[0] == 0
    requires forall u :: 1 + m <= u < |row| && u != a && u != b ==> row[u] == 0
    ensures Sum(row) == Sum(row[1..1 + m]) + row[a] + row[b]
  {
    var mid, rest := row[1..1 + m], row[1 + m..];
    assert row == [row[0]] + mid + rest;
    SumConcat([row[0]] + mid, rest);
    SumConcat([row[0]], mid);
    assert Sum([row[0]]) == 0;
    SumPair(rest, a - 1 - m, b - 1 - m);
  }

  /** Conservation at slot-filter f: what its interviewers send in (one unit each, at
      most) leaves through its slot and the sink. */
  lemma FilterBalance(flows: Matrix, c: Matrix, candidates: seq<Participant>, interviewers: seq<Participant>,
                      slots: seq<string>, config: Config, f: int)
    requires Capacities(c, candidates, interviewers, slots, config)
    requires FlowInvariants(flows, c, 0, |c| - 1)
    requires |interviewers| < f <= |interviewers| + |slots|
    ensures forall i :: 1 <= i <= |interviewers| ==> 0 <= flows[i][f] <= 1
    ensures var info := Info(|candidates|, |interviewers|, |slots|);
            flows[f][f + |slots|] + flows[f][|c| - 1] == |WithFlowInto(flows, info.interviewers, f)|
  {
    var ni := |interviewers|;
    var info := Info(|candidates|, ni, |slots|);
    FilterRow(flows, c, candidates, interviewers, slots, config, f);
    RowSum(flows[f], ni, f + |slots|, |c| - 1);
    FlowIntoCount(flows, info.interviewers, f, flows[f][1..1 + ni]);
    assert Sum(flows[f]) == 0;
  }

  /** Conservation at the slot of filter f: a unit that reaches the slot leaves it
      towards some candidate. */
  lemma SlotBalance(flows: Matrix, c: Matrix, candidates: seq<Participant>, interviewers: seq<Participant>,
                    slots: seq<string>, config: Config, f: int)
    requires Capacities(c, candidates, interviewers, slots, config)
    requires FlowInvariants(flows, c, 0, |c| - 1)
    requires |interviewers| < f <= |interviewers| + |slots| && flows[f][f + |slots|] == 1
    ensures LastWithFlow(flows, f + |slots|, Info(|candidates|, |interviewers|, |slots|).candidates).Some?
  {
    var ni, ns := |interviewers|, |slots|;
    var n := |c|;
    var sink := n - 1;
    var s := f + ns;
    var base := 1 + ni + 2 * ns;
    var row := flows[s];
    forall u | 0 <= u < base && u != f
      ensures row[u] == 0
    {
      if c[s][u] > 0 {
        OutOfSlot(candidates, interviewers, slots, config, s, u);
      }
      if c[u][s] > 0 {
        IntoSlot(candidates, interviewers, slots, config, u, s);
      }
    }
    forall v | base <= v < sink
      ensures 0 <= row[v] <= 1
    {
      if c[s][v] > 0 {
        OutOfSlot(candidates, interviewers, slots, config, s, v);
      }
      if c[v][s] > 0 {
        IntoSlot(candidates, interviewers, slots, config, v, s);
      }
    }
    assert row[sink] == 0 by {
      if c[s][sink] > 0 {
        OutOfSlot(candidates, interviewers, slots, config, s, sink);
      }
      if c[sink][s] > 0 {
        IntoSlot(candidates, interviewers, slots, config, sink, s);
      }
    }
    assert row == row[..base] + row[base..sink] + [row[sink]];
    SumConcat(row[..base] + row[base..sink], [row[sink]]);
    SumConcat(row[..base], row[base..sink]);
    SumSingle(row[..base], f);
    SumSingle([row[sink]], 0);
    SomeUnit(row[base..sink]);
    var k :| 0 <= k < |row[base..sink]| && row[base..sink][k] == 1;
    assert row[base + k] == 1;
  }

  // ---------------------------------------------------------------------------------
  // match: what the records promise

  /** A flow the max-flow search may return on the matcher's network: distinct keys, the
      capacities the matcher builds, and the three flow invariants. */
  ghost predicate Solved(flows: Matrix, c: Matrix, candidates: seq<Participant>, interviewers: seq<Participant>,
                         slots: seq<string>, config: Config)
  {
    DistinctKeys(candidates, interviewers, slots) &&
    Capacities(c, candidates, interviewers, slots, config) &&
    FlowInvariants(flows, c, 0, |c| - 1)
  }

  /** An interview panel: `size` distinct names, each the id of an interviewer who
      declared `slot`. */
  predicate Panel(names: seq<string>, slot: string, interviewers: seq<Participant>, size: int)
  {
    |names| == size &&
    (forall x, y :: 0 <= x < y < |names| ==> names[x] != names[y]) &&
    forall k :: 0 <= k < |names| ==> DeclaredBy(names[k], slot, interviewers)
  }

  /** `name` is the id of an interviewer who declared `slot`. */
  predicate DeclaredBy(name: string, slot: string, interviewers: seq<Participant>)
  {
    exists i :: 0 <= i < |interviewers| && interviewers[i].id == name && slot in interviewers[i].slots
  }

  /** A candidate is present and is one who declared `slot`. */
  predicate Candidacy(name: Option<string>, slot: string, candidates: seq<Participant>)
  {
    name.Some? &&
    exists c :: 0 <= c < |candidates| && candidates[c].id == name.value && slot in candidates[c].slots
  }

  /** A record the matcher may hand out: `interviewers_per_slot` distinct interviewers
      who all declared the record's slot, and a candidate who declared it too. */
  predicate SoundRecord(rec: MatchRecord, candidates: seq<Participant>, interviewers: seq<Participant>,
                        config: Config)
  {
    Panel(rec.interviewers, rec.slot, interviewers, config.interviewersPerSlot) &&
    Candidacy(rec.candidate, rec.slot, candidates)
  }

  /** Every slot-filter id decodes to its slot. */
  lemma SlotFiltersDecode(candidates: seq<Participant>, interviewers: seq<Participant>, slots: seq<string>,
                          ids: seq<int>)
    requires DistinctKeys(candidates, interviewers, slots)
    requires forall v :: v in ids ==> |interviewers| < v <= |interviewers| + |slots|
    ensures DecodeAll(NodesMap(candidates, interviewers, slots), "slot_filter", ids).Ok?
  {
    forall k | 0 <= k < |ids|
      ensures Decode(NodesMap(candidates, interviewers, slots), "slot_filter", ids[k]).Ok?
    {
      assert ids[k] in ids;
      SlotFilterName(candidates, interviewers, slots, ids[k] - 1 - |interviewers|);
    }
  }

  /** Every candidate id decodes to its candidate's id. */
  lemma CandidatesDecode(candidates: seq<Participant>, interviewers: seq<Participant>, slots: seq<string>,
                         ids: seq<int>)
    requires DistinctKeys(candidates, interviewers, slots)
    requires forall v :: v in ids ==>
               |interviewers| + 2 * |slots| < v <= |interviewers| + 2 * |slots| + |candidates|
    ensures DecodeAll(NodesMap(candidates, interviewers, slots), "candidate", ids).Ok?
  {
    forall k | 0 <= k < |ids|
      ensures Decode(NodesMap(candidates, interviewers, slots), "candidate", ids[k]).Ok?
    {
      assert ids[k] in ids;
      CandidateName(candidates, interviewers, slots, ids[k] - 1 - |interviewers| - 2 * |slots|);
    }
  }

  /** Every interviewer id decodes to its interviewer's id. */
  lemma InterviewersDecode(candidates: seq<Participant>, interviewers: seq<Participant>, slots: seq<string>,
                           ids: seq<int>)
    requires DistinctKeys(candidates, interviewers, slots)
    requires forall v :: v in ids ==> 1 <= v <= |interviewers|
    ensures DecodeAll(NodesMap(candidates, interviewers, slots), "interviewer", ids).Ok?
  {
    forall k | 0 <= k < |ids|
      ensures Decode(NodesMap(candidates, interviewers, slots), "interviewer", ids[k]).Ok?
    {
      assert ids[k] in ids;
      InterviewerName(candidates, interviewers, slots, ids[k] - 1);
    }
  }

  /** With distinct keys every name the three decoding loops read is in the map under
      its own type, so buildMatchesFromFlows never throws, whatever the flow. */
  lemma DecodingSucceeds(flows: Matrix, candidates: seq<Participant>, interviewers: seq<Participant>,
                         slots: seq<string>, config: Config)
    requires DistinctKeys(candidates, interviewers, slots)
    requires IsSquare(flows, |interviewers| + 2 * |slots| + |candidates| + 2)
    ensures var info := Info(|candidates|, |interviewers|, |slots|);
            FF.InfoFits(info, |flows|) &&
            BuildMatchesFromFlows(flows, NodesMap(candidates, interviewers, slots), info, config).Ok?
  {
    var ni, ns := |interviewers|, |slots|;
    var info := Info(|candidates|, ni, ns);
    InfoFitsLayout(|candidates|, ni, ns);
    InfoMembers(info, |flows|);
    var complete := CompleteAmong(flows, info.slotFilters, ns, config.interviewersPerSlot);
    SlotFiltersDecode(candidates, interviewers, slots, complete);
    CandidatesDecode(candidates, interviewers, slots, CandidateScan(flows, complete, info.candidates, ns));
    InterviewersDecode(candidates, interviewers, slots, InterviewerScan(flows, info.interviewers, complete));
  }

  /** The filter of a complete record sends exactly one unit to its slot: its sink edge
      holds at most `interviewers_per_slot - 1`. */
  lemma CompleteUsesSlot(flows: Matrix, c: Matrix, candidates: seq<Participant>, interviewers: seq<Participant>,
                         slots: seq<string>, config: Config, f: int)
    requires Capacities(c, candidates, interviewers, slots, config)
    requires FlowInvariants(flows, c, 0, |c| - 1)
    requires |interviewers| < f <= |interviewers| + |slots|
    requires flows[f][|c| - 1] + flows[f][f + |slots|] == config.interviewersPerSlot
    ensures flows[f][f + |slots|] == 1
  {
    var sink := |c| - 1;
    assert flows[f][sink] <= c[f][sink] == CapacityOf(candidates, interviewers, slots, config, f, sink);
    assert flows[f][f + |slots|] <= c[f][f + |slots|] ==
           CapacityOf(candidates, interviewers, slots, config, f, f + |slots|);
  }

  /** A node sending a unit into slot-filter f is an interviewer who declared its slot. */
  lemma InterviewerOfFilter(flows: Matrix, c: Matrix, candidates: seq<Participant>, interviewers: seq<Participant>,
                            slots: seq<string>, config: Config, f: int, i: int)
    requires Capacities(c, candidates, interviewers, slots, config)
    requires FlowInvariants(flows, c, 0, |c| - 1)
    requires |interviewers| < f <= |interviewers| + |slots| && 0 <= i < |c| && flows[i][f] == 1
    ensures 1 <= i <= |interviewers| && slots[f - 1 - |interviewers|] in interviewers[i - 1].slots
  {
    assert c[i][f] >= 1;
    IntoFilter(candidates, interviewers, slots, config, i, f);
  }

  /** The interviewers of a complete record form a panel for the filter's slot. */
  lemma RecordInterviewers(flows: Matrix, c: Matrix, candidates: seq<Participant>, interviewers: seq<Participant>,
                           slots: seq<string>, config: Config, f: int)
    requires Solved(flows, c, candidates, interviewers, slots, config)
    requires |interviewers| < f <= |interviewers| + |slots|
    requires flows[f][|c| - 1] + flows[f][f + |slots|] == config.interviewersPerSlot
    ensures Panel(Names(NodesMap(candidates, interviewers, slots), "interviewer",
                        WithFlowInto(flows, Info(|candidates|, |interviewers|, |slots|).interviewers, f)),
                  slots[f - 1 - |interviewers|], interviewers, config.interviewersPerSlot)
  {
    var ni := |interviewers|;
    var slot := slots[f - 1 - ni];
    var info := Info(|candidates|, ni, |slots|);
    FilterBalance(flows, c, candidates, interviewers, slots, config, f);
    var w := WithFlowInto(flows, info.interviewers, f);
    var names := Names(NodesMap(candidates, interviewers, slots), "interviewer", w);
    FilterInterviewers(flows, c, candidates, interviewers, slots, config, f);
    InterviewerNames(candidates, interviewers, slots, w);
    InterviewersDistinct(candidates, interviewers, slots);
    PanelFrom(names, w, slot, interviewers, config.interviewersPerSlot);
  }

  /** The interviewers sending a unit into filter f, in ascending order, each of whom
      declared the filter's slot. */
  lemma FilterInterviewers(flows: Matrix, c: Matrix, candidates: seq<Participant>, interviewers: seq<Participant>,
                           slots: seq<string>, config: Config, f: int)
    requires Capacities(c, candidates, interviewers, slots, config)
    requires FlowInvariants(flows, c, 0, |c| - 1)
    requires |interviewers| < f <= |interviewers| + |slots|
    ensures var w := WithFlowInto(flows, Info(|candidates|, |interviewers|, |slots|).interviewers, f);
            FF.Ascending(w) &&
            forall k :: 0 <= k < |w| ==>
              1 <= w[k] <= |interviewers| && slots[f - 1 - |interviewers|] in interviewers[w[k] - 1].slots
  {
    var w := WithFlowInto(flows, Info(|candidates|, |interviewers|, |slots|).interviewers, f);
    forall k | 0 <= k < |w|
      ensures 1 <= w[k] <= |interviewers| && slots[f - 1 - |interviewers|] in interviewers[w[k] - 1].slots
    {
      assert w[k] in w;
      InterviewerOfFilter(flows, c, candidates, interviewers, slots, config, f, w[k]);
    }
  }

  /** The names the interviewer nodes in `w` decode to are the interviewers' ids. */
  lemma InterviewerNames(candidates: seq<Participant>, interviewers: seq<Participant>, slots: seq<string>,
                         w: seq<int>)
    requires DistinctKeys(candidates, interviewers, slots)
    requires forall k :: 0 <= k < |w| ==> 1 <= w[k] <= |interviewers|
    ensures forall k :: 0 <= k < |w| ==>
              Names(NodesMap(candidates, interviewers, slots), "interviewer", w)[k] == interviewers[w[k] - 1].id
  {
    forall k | 0 <= k < |w|
      ensures Names(NodesMap(candidates, interviewers, slots), "interviewer", w)[k] == interviewers[w[k] - 1].id
    {
      InterviewerName(candidates, interviewers, slots, w[k] - 1);
    }
  }

  /** The names of ascending interviewer nodes, each of whom declared `slot`, form a panel
      when interviewer ids are distinct. */
  lemma PanelFrom(names: seq<string>, w: seq<int>, slot: string, interviewers: seq<Participant>, size: int)
    requires |names| == |w| && |w| == size && FF.Ascending(w)
    requires forall x, y :: 0 <= x < y < |interviewers| ==> interviewers[x].id != interviewers[y].id
    requires forall k :: 0 <= k < |w| ==>
               1 <= w[k] <= |interviewers| && names[k] == interviewers[w[k] - 1].id &&
               slot in interviewers[w[k] - 1].slots
    ensures Panel(names, slot, interviewers, size)
  {
    forall x, y | 0 <= x < y < |names|
      ensures names[x] != names[y]
    {
      assert w[x] < w[y];
    }
    forall k | 0 <= k < |names|
      ensures DeclaredBy(names[k], slot, interviewers)
    {
      var i := w[k] - 1;
      assert 0 <= i < |interviewers| && interviewers[i].id == names[k] && slot in interviewers[i].slots;
    }
  }

  /** A node receiving a unit from slot s is a candidate who declared its slot. */
  lemma CandidateOfSlot(flows: Matrix, c: Matrix, candidates: seq<Participant>, interviewers: seq<Participant>,
                        slots: seq<string>, config: Config, s: int, v: int)
    requires Capacities(c, candidates, interviewers, slots, config)
    requires FlowInvariants(flows, c, 0, |c| - 1)
    requires |interviewers| + |slots| < s <= |interviewers| + 2 * |slots| && 0 <= v < |c| && flows[s][v] == 1
    ensures |interviewers| + 2 * |slots| < v <= |interviewers| + 2 * |slots| + |candidates|
    ensures slots[s - 1 - |interviewers| - |slots|] in candidates[v - 1 - |interviewers| - 2 * |slots|].slots
  {
    assert c[s][v] >= 1;
    OutOfSlot(candidates, interviewers, slots, config, s, v);
  }

  /** The candidate of a complete record is present and declared the filter's slot. */
  lemma RecordCandidate(flows: Matrix, c: Matrix, candidates: seq<Participant>, interviewers: seq<Participant>,
                        slots: seq<string>, config: Config, f: int)
    requires Solved(flows, c, candidates, interviewers, slots, config)
    requires |interviewers| < f <= |interviewers| + |slots|
    requires flows[f][|c| - 1] + flows[f][f + |slots|] == config.interviewersPerSlot
    ensures var last := LastWithFlow(flows, f + |slots|, Info(|candidates|, |interviewers|, |slots|).candidates);
            last.Some? &&
            Candidacy(Some(Name(NodesMap(candidates, interviewers, slots), "candidate", last.value)),
                      slots[f - 1 - |interviewers|], candidates)
  {
    SlotCandidate(flows, c, candidates, interviewers, slots, config, f);
    var v := LastWithFlow(flows, f + |slots|, Info(|candidates|, |interviewers|, |slots|).candidates).value;
    CandidateCandidacy(candidates, interviewers, slots, v, slots[f - 1 - |interviewers|]);
  }

  /** The slot of a complete filter sends its unit to a candidate who declared the slot. */
  lemma SlotCandidate(flows: Matrix, c: Matrix, candidates: seq<Participant>, interviewers: seq<Participant>,
                      slots: seq<string>, config: Config, f: int)
    requires Capacities(c, candidates, interviewers, slots, config)
    requires FlowInvariants(flows, c, 0, |c| - 1)
    requires |interviewers| < f <= |interviewers| + |slots|
    requires flows[f][|c| - 1] + flows[f][f + |slots|] == config.interviewersPerSlot
    ensures var last := LastWithFlow(flows, f + |slots|, Info(|candidates|, |interviewers|, |slots|).candidates);
            last.Some? &&
            |interviewers| + 2 * |slots| < last.value <= |interviewers| + 2 * |slots| + |candidates| &&
            slots[f - 1 - |interviewers|] in candidates[last.value - 1 - |interviewers| - 2 * |slots|].slots
  {
    CompleteUsesSlot(flows, c, candidates, interviewers, slots, config, f);
    SlotBalance(flows, c, candidates, interviewers, slots, config, f);
    var v := LastWithFlow(flows, f + |slots|, Info(|candidates|, |interviewers|, |slots|).candidates).value;
    CandidateOfSlot(flows, c, candidates, interviewers, slots, config, f + |slots|, v);
  }

  /** The candidate node v decodes to the id of a candidate who declared `slot`. */
  lemma CandidateCandidacy(candidates: seq<Participant>, interviewers: seq<Participant>, slots: seq<string>,
                           v: int, slot: string)
    requires DistinctKeys(candidates, interviewers, slots)
    requires |interviewers| + 2 * |slots| < v <= |interviewers| + 2 * |slots| + |candidates|
    requires slot in candidates[v - 1 - |interviewers| - 2 * |slots|].slots
    ensures Candidacy(Some(Name(NodesMap(candidates, interviewers, slots), "candidate", v)), slot, candidates)
  {
    var k := v - 1 - |interviewers| - 2 * |slots|;
    CandidateName(candidates, interviewers, slots, k);
    assert candidates[k].id == Name(NodesMap(candidates, interviewers, slots), "candidate", v);
  }

  /** The record of a filter whose slot sends a unit to some candidate. */
  lemma RecordShape(flows: Matrix, nodes: NodeMap, info: FF.GraphInfo, f: int, size: int)
    requires IsSquare(flows, |flows|) && FF.InfoFits(info, |flows|) && f in info.slotFilters
    requires size == |info.slotFilters| && 0 <= f + size < |flows|
    requires forall c :: c in info.candidates ==> 0 <= c < |flows|
    requires LastWithFlow(flows, f + size, info.candidates).Some?
    ensures Record(flows, nodes, info, f) ==
            MatchRecord(Name(nodes, "slot_filter", f),
                        Names(nodes, "interviewer", WithFlowInto(flows, info.interviewers, f)),
                        Some(Name(nodes, "candidate", LastWithFlow(flows, f + size, info.candidates).value)))
  {
  }

  lemma NameOfDecoded(nodes: NodeMap, kind: string, id: int, name: string)
    requires Decode(nodes, kind, id) == Ok(name)
    ensures Name(nodes, kind, id) == name
  {
  }

  /** What decoding needs of slot-filter f to produce a sound record for `slot`: the
      filter id decodes to the slot, the interviewers sending the filter a unit form a
      panel for the slot, and the slot sends a unit to a candidate who declared it. */
  predicate RecordReady(flows: Matrix, nodes: NodeMap, info: FF.GraphInfo, f: int, size: int, slot: string,
                        candidates: seq<Participant>, interviewers: seq<Participant>, config: Config)
  {
    IsSquare(flows, |flows|) && FF.InfoFits(info, |flows|) && f in info.slotFilters && size == |info.slotFilters| &&
    0 <= f < |flows| && 0 <= f + size < |flows| &&
    (forall v :: v in info.interviewers ==> 0 <= v < |flows|) &&
    (forall v :: v in info.candidates ==> 0 <= v < |flows|) &&
    Decode(nodes, "slot_filter", f) == Ok(slot) &&
    Panel(Names(nodes, "interviewer", WithFlowInto(flows, info.interviewers, f)),
          slot, interviewers, config.interviewersPerSlot) &&
    LastWithFlow(flows, f + size, info.candidates).Some? &&
    Candidacy(Some(Name(nodes, "candidate", LastWithFlow(flows, f + size, info.candidates).value)),
              slot, candidates)
  }

  /** A record whose interviewers form a panel and whose candidate is present and
      declared the filter's slot is sound. */
  lemma RecordFromParts(flows: Matrix, nodes: NodeMap, info: FF.GraphInfo, f: int, size: int, slot: string,
                        candidates: seq<Participant>, interviewers: seq<Participant>, config: Config)
    requires RecordReady(flows, nodes, info, f, size, slot, candidates, interviewers, config)
    ensures Record(flows, nodes, info, f).slot == slot
    ensures SoundRecord(Record(flows, nodes, info, f), candidates, interviewers, config)
  {
    RecordShape(flows, nodes, info, f, size);
    NameOfDecoded(nodes, "slot_filter", f, slot);
  }

  /** Every complete filter f is ready to decode into a sound record for its slot. */
  lemma RecordParts(flows: Matrix, c: Matrix, candidates: seq<Participant>, interviewers: seq<Participant>,
                    slots: seq<string>, config: Config, f: int)
    requires Solved(flows, c, candidates, interviewers, slots, config)
    requires |interviewers| < f <= |interviewers| + |slots|
    requires flows[f][|c| - 1] + flows[f][f + |slots|] == config.interviewersPerSlot
    ensures RecordReady(flows, NodesMap(candidates, interviewers, slots), Info(|candidates|, |interviewers|, |slots|),
                        f, |slots|, slots[f - 1 - |interviewers|], candidates, interviewers, config)
  {
    var info := Info(|candidates|, |interviewers|, |slots|);
    InfoFitsLayout(|candidates|, |interviewers|, |slots|);
    InfoMembers(info, |flows|);
    SlotFilterNameAt(candidates, interviewers, slots, f);
    RecordInterviewers(flows, c, candidates, interviewers, slots, config, f);
    RecordCandidate(flows, c, candidates, interviewers, slots, config, f);
  }

  /** The record of a complete filter f of the matcher's network is sound and carries
      f's slot. */
  lemma CompleteRecord(flows: Matrix, c: Matrix, candidates: seq<Participant>, interviewers: seq<Participant>,
                       slots: seq<string>, config: Config, f: int)
    requires Solved(flows, c, candidates, interviewers, slots, config)
    requires |interviewers| < f <= |interviewers| + |slots|
    requires flows[f][|c| - 1] + flows[f][f + |slots|] == config.interviewersPerSlot
    ensures FF.InfoFits(Info(|candidates|, |interviewers|, |slots|), |flows|)
    ensures var r := Record(flows, NodesMap(candidates, interviewers, slots),
                            Info(|candidates|, |interviewers|, |slots|), f);
            r.slot == slots[f - 1 - |interviewers|] && SoundRecord(r, candidates, interviewers, config)
  {
    RecordParts(flows, c, candidates, interviewers, slots, config, f);
    RecordFromParts(flows, NodesMap(candidates, interviewers, slots), Info(|candidates|, |interviewers|, |slots|),
                    f, |slots|, slots[f - 1 - |interviewers|], candidates, interviewers, config);
  }

  /** The records of the complete filters among `info.slotFilters`, each carrying its
      filter's slot and sound. */
  predicate RecordsSound(flows: Matrix, nodes: NodeMap, info: FF.GraphInfo, ni: int, slots: seq<string>,
                         candidates: seq<Participant>, interviewers: seq<Participant>, config: Config)
    requires IsSquare(flows, |flows|) && FF.InfoFits(info, |flows|)
  {
    forall f {:trigger Record(flows, nodes, info, f)} ::
      f in info.slotFilters && f + |slots| < |flows| &&
      flows[f][|flows| - 1] + flows[f][f + |slots|] == config.interviewersPerSlot ==>
      ni < f <= ni + |slots| && Record(flows, nodes, info, f).slot == slots[f - 1 - ni] &&
      SoundRecord(Record(flows, nodes, info, f), candidates, interviewers, config)
  }

  /** The record of every complete filter is sound and carries the filter's slot. */
  lemma CompleteRecords(flows: Matrix, c: Matrix, candidates: seq<Participant>, interviewers: seq<Participant>,
                        slots: seq<string>, config: Config)
    requires Solved(flows, c, candidates, interviewers, slots, config)
    ensures FF.InfoFits(Info(|candidates|, |interviewers|, |slots|), |flows|)
    ensures RecordsSound(flows, NodesMap(candidates, interviewers, slots), Info(|candidates|, |interviewers|, |slots|),
                         |interviewers|, slots, candidates, interviewers, config)
  {
    var info := Info(|candidates|, |interviewers|, |slots|);
    InfoFitsLayout(|candidates|, |interviewers|, |slots|);
    forall f | f in info.slotFilters && f + |slots| < |flows| &&
               flows[f][|flows| - 1] + flows[f][f + |slots|] == config.interviewersPerSlot
      ensures |interviewers| < f <= |interviewers| + |slots|
      ensures var r := Record(flows, NodesMap(candidates, interviewers, slots), info, f);
              r.slot == slots[f - 1 - |interviewers|] && SoundRecord(r, candidates, interviewers, config)
    {
      CompleteRecord(flows, c, candidates, interviewers, slots, config, f);
    }
  }

  /** The complete filters are ascending slot-filters whose two edges carry `target`. */
  lemma CompleteFilters(flows: Matrix, info: FF.GraphInfo, target: int)
    requires IsSquare(flows, |flows|) && FF.InfoFits(info, |flows|)
    requires forall f :: f in info.slotFilters ==> 0 <= f && f + |info.slotFilters| < |flows|
    ensures var complete := CompleteAmong(flows, info.slotFilters, |info.slotFilters|, target);
            FF.Ascending(complete) &&
            forall f :: f in complete ==>
              f in info.slotFilters && 0 <= f && f + |info.slotFilters| < |flows| &&
              flows[f][|flows| - 1] + flows[f][f + |info.slotFilters|] == target
  {
  }

  /** When the record of every complete filter is sound, so is each record of a list
      holding the records of ascending complete filters, and over a strictly ascending
      catalogue the list is in slot order. */
  lemma RecordsInOrder(flows: Matrix, nodes: NodeMap, info: FF.GraphInfo, ni: int, slots: seq<string>,
                       candidates: seq<Participant>, interviewers: seq<Participant>, config: Config,
                       complete: seq<int>, records: seq<MatchRecord>)
    requires IsSquare(flows, |flows|) && FF.InfoFits(info, |flows|) && |info.slotFilters| == |slots|
    requires Lexicographic.StrictlyAscending(slots)
    requires RecordsSound(flows, nodes, info, ni, slots, candidates, interviewers, config)
    requires FF.Ascending(complete)
    requires forall f :: f in complete ==>
               f in info.slotFilters && 0 <= f && f + |info.slotFilters| < |flows| &&
               flows[f][|flows| - 1] + flows[f][f + |info.slotFilters|] == config.interviewersPerSlot
    requires |records| == |complete| &&
             forall k :: 0 <= k < |complete| ==> records[k] == Record(flows, nodes, info, complete[k])
    ensures forall k :: 0 <= k < |records| ==> SoundRecord(records[k], candidates, interviewers, config)
    ensures forall x, y :: 0 <= x < y < |records| ==> Lexicographic.Less(records[x].slot, records[y].slot)
  {
    forall k | 0 <= k < |records|
      ensures ni < complete[k] <= ni + |slots| && records[k].slot == slots[complete[k] - 1 - ni]
      ensures SoundRecord(records[k], candidates, interviewers, config)
    {
      assert complete[k] in complete;
    }
    forall x, y | 0 <= x < y < |records|
      ensures Lexicographic.Less(records[x].slot, records[y].slot)
    {
      assert complete[x] < complete[y];
    }
  }

  /** The records buildMatchesFromFlows hands out for a flow the max-flow search may
      return: decoding succeeds, every record is a full panel of interviewers who declared
      its slot with a candidate who declared it too, and the records come in slot order. */
  lemma MatchSound(flows: Matrix, c: Matrix, candidates: seq<Participant>, interviewers: seq<Participant>,
                   slots: seq<string>, config: Config)
    requires Solved(flows, c, candidates, interviewers, slots, config)
    requires Lexicographic.StrictlyAscending(slots)
    ensures FF.InfoFits(Info(|candidates|, |interviewers|, |slots|), |flows|)
    ensures var r := BuildMatchesFromFlows(flows, NodesMap(candidates, interviewers, slots),
                                           Info(|candidates|, |interviewers|, |slots|), config);
            r.Ok? &&
            (forall k :: 0 <= k < |r.value| ==> SoundRecord(r.value[k], candidates, interviewers, config)) &&
            (forall x, y :: 0 <= x < y < |r.value| ==> Lexicographic.Less(r.value[x].slot, r.value[y].slot))
  {
    DecodingSucceeds(flows, candidates, interviewers, slots, config);
    CompleteRecords(flows, c, candidates, interviewers, slots, config);
    var info := Info(|candidates|, |interviewers|, |slots|);
    InfoMembers(info, |flows|);
    var complete := CompleteAmong(flows, info.slotFilters, |info.slotFilters|, config.interviewersPerSlot);
    var r := BuildMatchesFromFlows(flows, NodesMap(candidates, interviewers, slots), info, config);
    CompleteFilters(flows, info, config.interviewersPerSlot);
    RecordsInOrder(flows, NodesMap(candidates, interviewers, slots), info, |interviewers|, slots,
                   candidates, interviewers, config, complete, r.value);
  }

  // ---------------------------------------------------------------------------------
  // match

  /** The first four steps of `match`: the slots, the empty graph, its capacities, and
      the pruning. The capacities that result are the ones `CapacityOf` gives. */
  method BuildNetwork(candidates: seq<Participant>, interviewers: seq<Participant>, config: Config)
    returns (slots: seq<string>, capacities: array2<int>, nodes: NodeMap, info: FF.GraphInfo)
    requires DistinctKeys(candidates, interviewers, GetSlots(candidates, interviewers))
    requires config.interviewersPerSlot >= 1 && config.maxInterviewsPerInterviewer >= 0
    ensures slots == GetSlots(candidates, interviewers)
    ensures nodes == NodesMap(candidates, interviewers, slots)
    ensures info == Info(|candidates|, |interviewers|, |slots|)
    ensures fresh(capacities) && capacities.Length0 == capacities.Length1
    ensures Capacities(FF.Grid(capacities), candidates, interviewers, slots, config)
    ensures forall u, v :: 0 <= u < capacities.Length0 && 0 <= v < capacities.Length1 ==> capacities[u, v] >= 0
  {
    slots := GetSlots(candidates, interviewers);
    capacities, nodes, info := BuildCapacitiesGraph(candidates, interviewers, slots);
    NodesMapLayout(candidates, interviewers, slots);
    PopulateCapacitiesGraph(candidates, interviewers, slots, capacities, nodes, config);
    PruneCapacitiesGraph(interviewers, capacities, nodes, config, candidates, slots);
    ghost var n := capacities.Length0;
    ghost var c := FF.Grid(capacities);
    forall u, v | 0 <= u < n && 0 <= v < n
      ensures c[u][v] == CapacityOf(candidates, interviewers, slots, config, u, v)
      ensures capacities[u, v] >= 0
    {
      CapacityNonNegative(candidates, interviewers, slots, config, u, v);
    }
  }

  /** match: builds the network for the declared slots, runs the max-flow search from the
      all-zero flow and decodes the flow. Whatever flow the search settles on, decoding
      succeeds, and every record is a panel of `interviewers_per_slot` distinct
      interviewers who declared the record's slot, with a candidate who declared it too;
      the records come in slot order. The records are the decoding of the flow the search
      leaves in `solver`: a flow over the built network that keeps the flow invariants and
      leaves no admissible path from an interviewer with work left to the sink. */
  method Match(candidates: seq<Participant>, interviewers: seq<Participant>, config: Config)
    returns (r: Result<seq<MatchRecord>>, ghost solver: FF.FordFulkerson, ghost flows: Matrix)
    requires DistinctKeys(candidates, interviewers, GetSlots(candidates, interviewers))
    requires config.interviewersPerSlot >= 1 && config.maxInterviewsPerInterviewer >= 0
    ensures r.Ok?
    ensures forall k :: 0 <= k < |r.value| ==> SoundRecord(r.value[k], candidates, interviewers, config)
    ensures forall x, y :: 0 <= x < y < |r.value| ==> Lexicographic.Less(r.value[x].slot, r.value[y].slot)
    ensures solver.Ready() && solver.info == Info(|candidates|, |interviewers|, |GetSlots(candidates, interviewers)|)
    ensures Capacities(FF.Grid(solver.capacities), candidates, interviewers, GetSlots(candidates, interviewers), config)
    ensures flows == FF.Grid(solver.flows)
    ensures FlowInvariants(flows, FF.Grid(solver.capacities), solver.source, solver.sink)
    ensures forall i :: 0 <= i < solver.Size() && i in solver.info.interviewers && solver.Residual(solver.source, i) > 0 ==>
              !solver.Reaches(i, solver.sink)
    ensures r == BuildMatchesFromFlows(flows, NodesMap(candidates, interviewers, GetSlots(candidates, interviewers)),
                                       solver.info, config)
  {
    var slots, capacities, nodes, info := BuildNetwork(candidates, interviewers, config);
    ghost var c := FF.Grid(capacities);
    var search := new FF.FordFulkerson(capacities, info);
    FF.ZeroGrid(search.flows);
    ZeroFlowInvariants(c, 0, |c| - 1);
    InfoFitsLayout(|candidates|, |interviewers|, |slots|);
    var result := search.CalcMaxFlow();

    var m := FF.Grid(result);
    MatchSound(m, c, candidates, interviewers, slots, config);
    r := BuildMatchesFromFlows(m, nodes, info, config);
    solver, flows := search, m;
  }
}
