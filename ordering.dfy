/** The ordering used by the three neighbour-sorting helpers of the max-flow search
    (src/FordFulkerson/FordFulkerson.js:154-203): `Object.entries` of an object keyed by
    node id lists the ids in ascending order, the entries with a non-positive count are
    dropped, and a stable sort orders the rest by count. A stable sort of an ascending-id
    list by count is the sort by (count, id); that is the order defined here. */
module Ordering {

  /** One `[id, count]` pair of `Object.entries`. */
  datatype Entry = Entry(id: int, count: int)

  /** `a` comes before `b`: by count (descending or ascending), ties broken by ascending id. */
  predicate Precedes(a: Entry, b: Entry, descending: bool)
  {
    (if descending then a.count > b.count else a.count < b.count) ||
    (a.count == b.count && a.id < b.id)
  }

  predicate SortedBy(s: seq<Entry>, descending: bool)
  {
    forall i, j :: 0 <= i < j < |s| ==> Precedes(s[i], s[j], descending)
  }

  predicate DistinctIds(s: seq<Entry>)
  {
    forall i, j :: 0 <= i < j < |s| ==> s[i].id != s[j].id
  }

  function Ids(s: seq<Entry>): (r: seq<int>)
    ensures |r| == |s| && forall k :: 0 <= k < |s| ==> r[k] == s[k].id
  {
    if s == [] then [] else [s[0].id] + Ids(s[1..])
  }

  /** The `filter(([_id, count]) => count > 0)` step. */
  function Positive(s: seq<Entry>): (r: seq<Entry>)
    ensures forall e :: e in r <==> e in s && e.count > 0
    ensures multiset(r) <= multiset(s)
  {
    if s == [] then []
    else
      assert s == [s[0]] + s[1..];
      if s[0].count > 0 then [s[0]] + Positive(s[1..]) else Positive(s[1..])
  }

  /** An entry whose id no entry of a distinct list has may head it. */
  lemma DistinctCons(a: Entry, t: seq<Entry>)
    requires DistinctIds(t)
    requires forall e :: e in t ==> e.id != a.id
    ensures DistinctIds([a] + t)
  {
    forall i, j | 0 <= i < j < |[a] + t|
      ensures ([a] + t)[i].id != ([a] + t)[j].id
    {
      assert ([a] + t)[j] == t[j - 1];
      if i == 0 {
        assert t[j - 1] in t;
      } else {
        assert ([a] + t)[i] == t[i - 1];
      }
    }
  }

  /** No entry of the tail of a distinct list has the head's id. */
  lemma DistinctHead(s: seq<Entry>)
    requires DistinctIds(s) && s != []
    ensures DistinctIds(s[1..])
    ensures forall e :: e in s[1..] ==> e.id != s[0].id
  {
    forall e | e in s[1..]
      ensures e.id != s[0].id
    {
      var k :| 0 <= k < |s[1..]| && s[1..][k] == e;
      assert s[k + 1] == e;
    }
  }

  /** Filtering keeps the ids distinct. */
  lemma {:induction false} PositiveDistinct(s: seq<Entry>)
    requires DistinctIds(s)
    ensures DistinctIds(Positive(s))
  {
    if s != [] {
      DistinctHead(s);
      PositiveDistinct(s[1..]);
      if s[0].count > 0 {
        DistinctCons(s[0], Positive(s[1..]));
      }
    }
  }

  lemma PrecedesTransitive(a: Entry, b: Entry, c: Entry, descending: bool)
    requires Precedes(a, b, descending) && Precedes(b, c, descending)
    ensures Precedes(a, c, descending)
  {
  }

  /** Two entries with different ids are always ordered one way or the other. */
  lemma PrecedesTotal(a: Entry, b: Entry, descending: bool)
    requires a.id != b.id
    ensures Precedes(a, b, descending) || Precedes(b, a, descending)
  {
  }

  /** The tail of a sorted list is sorted, and its head precedes every entry of it. */
  lemma SortedTail(s: seq<Entry>, descending: bool)
    requires SortedBy(s, descending) && s != []
    ensures SortedBy(s[1..], descending)
    ensures forall e :: e in s[1..] ==> Precedes(s[0], e, descending)
  {
    forall e | e in s[1..]
      ensures Precedes(s[0], e, descending)
    {
      var k :| 0 <= k < |s[1..]| && s[1..][k] == e;
      assert s[k + 1] == e;
    }
  }

  /** An entry preceding every entry of a sorted list may head it. */
  lemma SortedCons(a: Entry, t: seq<Entry>, descending: bool)
    requires SortedBy(t, descending)
    requires forall e :: e in t ==> Precedes(a, e, descending)
    ensures SortedBy([a] + t, descending)
  {
    forall i, j | 0 <= i < j < |[a] + t|
      ensures Precedes(([a] + t)[i], ([a] + t)[j], descending)
    {
      assert ([a] + t)[j] == t[j - 1];
      if i == 0 {
        assert t[j - 1] in t;
      } else {
        assert ([a] + t)[i] == t[i - 1];
      }
    }
  }

  /** An entry preceding the head of a sorted list precedes all of it. */
  lemma PrecedesHead(x: Entry, s: seq<Entry>, descending: bool)
    requires SortedBy(s, descending) && s != [] && Precedes(x, s[0], descending)
    ensures forall e :: e in s ==> Precedes(x, e, descending)
  {
    forall e | e in s
      ensures Precedes(x, e, descending)
    {
      var k :| 0 <= k < |s| && s[k] == e;
      if k > 0 {
        PrecedesTransitive(x, s[0], e, descending);
      }
    }
  }

  /** The entries of a list whose multiset is another's plus `x`. */
  lemma MembersPlus(r: seq<Entry>, t: seq<Entry>, x: Entry)
    requires multiset(r) == multiset(t) + multiset{x}
    ensures forall e :: e in r ==> e in t || e == x
  {
    forall e | e in r
      ensures e in t || e == x
    {
      assert e in multiset(r);
    }
  }

  /** Places `x` before the first entry it precedes. */
  function Insert(x: Entry, s: seq<Entry>, descending: bool): (r: seq<Entry>)
    requires SortedBy(s, descending)
    requires forall e :: e in s ==> e.id != x.id
    ensures SortedBy(r, descending)
    ensures multiset(r) == multiset(s) + multiset{x}
  {
    if s == [] then [x]
    else if Precedes(x, s[0], descending) then
      PrecedesHead(x, s, descending);
      SortedCons(x, s, descending);
      [x] + s
    else
      PrecedesTotal(x, s[0], descending);
      SortedTail(s, descending);
      assert forall e :: e in s[1..] ==> e in s;
      var tail := Insert(x, s[1..], descending);
      MembersPlus(tail, s[1..], x);
      SortedCons(s[0], tail, descending);
      assert s == [s[0]] + s[1..];
      [s[0]] + tail
  }

  /** Insertion sort by `Precedes`. */
  function Sort(s: seq<Entry>, descending: bool): (r: seq<Entry>)
    requires DistinctIds(s)
    ensures SortedBy(r, descending)
    ensures multiset(r) == multiset(s)
  {
    if s == [] then []
    else
      assert s == [s[0]] + s[1..];
      DistinctHead(s);
      var tail := Sort(s[1..], descending);
      assert forall e :: e in tail ==> e in multiset(s[1..]);
      Insert(s[0], tail, descending)
  }

  lemma HeadFirst(s: seq<Entry>, e: Entry, descending: bool)
    requires SortedBy(s, descending) && e in s
    ensures e == s[0] || Precedes(s[0], e, descending)
  {
  }

  lemma TailMultiset(s: seq<Entry>)
    requires s != []
    ensures multiset(s[1..]) == multiset(s) - multiset{s[0]}
  {
    assert s == [s[0]] + s[1..];
  }

  /** A list sorted by `Precedes` is determined by its elements: any two sorted
      arrangements of the same entries coincide, so the stable sort of the source and
      this insertion sort give the same list. */
  lemma {:induction false} SortedUnique(a: seq<Entry>, b: seq<Entry>, descending: bool)
    requires SortedBy(a, descending) && SortedBy(b, descending)
    requires multiset(a) == multiset(b)
    ensures a == b
    decreases |a|
  {
    if a != [] {
      assert |a| == |b| by {
        assert |multiset(a)| == |multiset(b)|;
      }
      assert b[0] in multiset(a) && a[0] in multiset(b);
      HeadFirst(a, b[0], descending);
      HeadFirst(b, a[0], descending);
      assert a[0] == b[0];
      TailMultiset(a);
      TailMultiset(b);
      SortedUnique(a[1..], b[1..], descending);
    }
  }

  /** The count recorded for id `v` (the first entry with that id), 0 when there is none. */
  function CountOf(e: seq<Entry>, v: int): int
  {
    if e == [] then 0 else if e[0].id == v then e[0].count else CountOf(e[1..], v)
  }

  lemma {:induction false} CountOfMember(e: seq<Entry>, x: Entry)
    requires DistinctIds(e) && x in e
    ensures CountOf(e, x.id) == x.count
  {
    if e[0] != x {
      assert x in e[1..];
      CountOfMember(e[1..], x);
    }
  }

  /** Every entry of the sorted list is an entry of `e` with a positive count, and the
      other way round; its counts are those `CountOf` reads. */
  lemma SortedEntries(e: seq<Entry>, descending: bool)
    requires DistinctIds(e) && DistinctIds(Positive(e))
    ensures forall x :: x in Sort(Positive(e), descending) <==> x in e && x.count > 0
    ensures forall x :: x in Sort(Positive(e), descending) ==> CountOf(e, x.id) == x.count
  {
    var p := Positive(e);
    var s := Sort(p, descending);
    forall x
      ensures x in s <==> x in p
    {
      assert x in s <==> x in multiset(s);
      assert x in p <==> x in multiset(p);
    }
    forall x | x in s
      ensures CountOf(e, x.id) == x.count
    {
      CountOfMember(e, x);
    }
  }

  lemma RankedMembers(e: seq<Entry>, descending: bool, r: seq<int>)
    requires DistinctIds(e) && DistinctIds(Positive(e)) && r == Ids(Sort(Positive(e), descending))
    ensures forall v :: v in r <==> v in Ids(e) && CountOf(e, v) > 0
  {
    var s := Sort(Positive(e), descending);
    SortedEntries(e, descending);
    forall v | v in Ids(e) && CountOf(e, v) > 0
      ensures v in r
    {
      var j :| 0 <= j < |e| && Ids(e)[j] == v;
      assert e[j] in e;
      CountOfMember(e, e[j]);
      assert e[j] in s;
      var k :| 0 <= k < |s| && s[k] == e[j];
      assert r[k] == v;
    }
    forall v | v in r
      ensures v in Ids(e) && CountOf(e, v) > 0
    {
      var k :| 0 <= k < |r| && r[k] == v;
      assert s[k] in s;
      var j :| 0 <= j < |e| && e[j] == s[k];
      assert Ids(e)[j] == v;
    }
  }

  lemma RankedOrder(e: seq<Entry>, descending: bool, r: seq<int>)
    requires DistinctIds(e) && DistinctIds(Positive(e)) && r == Ids(Sort(Positive(e), descending))
    ensures forall i, j :: 0 <= i < j < |r| ==> r[i] != r[j]
    ensures forall i, j :: 0 <= i < j < |r| ==>
              (if descending then CountOf(e, r[i]) > CountOf(e, r[j])
               else CountOf(e, r[i]) < CountOf(e, r[j])) ||
              (CountOf(e, r[i]) == CountOf(e, r[j]) && r[i] < r[j])
  {
    var s := Sort(Positive(e), descending);
    SortedEntries(e, descending);
    forall i, j | 0 <= i < j < |s|
      ensures CountOf(e, s[i].id) == s[i].count && CountOf(e, s[j].id) == s[j].count
    {
      assert s[i] in s && s[j] in s;
    }
  }

  /** `Object.entries(...).filter(count > 0).sort(by count).map(id)`: the ids whose count
      is positive, ordered by count (descending or ascending), ties by ascending id. */
  function Ranked(e: seq<Entry>, descending: bool): (r: seq<int>)
    requires DistinctIds(e)
    ensures forall v :: v in r <==> v in Ids(e) && CountOf(e, v) > 0
    ensures forall i, j :: 0 <= i < j < |r| ==> r[i] != r[j]
    ensures forall i, j :: 0 <= i < j < |r| ==>
              (if descending then CountOf(e, r[i]) > CountOf(e, r[j])
               else CountOf(e, r[i]) < CountOf(e, r[j])) ||
              (CountOf(e, r[i]) == CountOf(e, r[j]) && r[i] < r[j])
  {
    PositiveDistinct(e);
    var r := Ids(Sort(Positive(e), descending));
    RankedMembers(e, descending, r);
    RankedOrder(e, descending, r);
    r
  }
}
