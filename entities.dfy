/** Entity keys: a node name is its type, an underscore and its id (src/entities.js). */
module Entities {
  import opened Results

  /** `needle` occurs somewhere in `hay`. */
  ghost predicate OccursAt(hay: string, needle: string, i: int)
  {
    0 <= i && i + |needle| <= |hay| && hay[i..i + |needle|] == needle
  }

  /** String.prototype.includes: a substring test, computed by sliding a window. */
  function Includes(hay: string, needle: string): (b: bool)
    ensures b <==> exists i :: OccursAt(hay, needle, i)
  {
    if |needle| > |hay| then
      assert forall i :: !OccursAt(hay, needle, i);
      false
    else if hay[..|needle|] == needle then
      assert OccursAt(hay, needle, 0);
      true
    else
      var rest := Includes(hay[1..], needle);
      assert forall i :: OccursAt(hay[1..], needle, i) <==> OccursAt(hay, needle, i + 1);
      assert !OccursAt(hay, needle, 0);
      assert forall i :: OccursAt(hay, needle, i) ==> i >= 1 && OccursAt(hay[1..], needle, i - 1);
      rest
  }

  /** hashEntity: the key of entity `id` of type `kind`. */
  function HashEntity(kind: string, id: string): (r: string)
    ensures |r| == |kind| + 1 + |id|
    ensures r[..|kind|] == kind && r[|kind|] == '_' && r[|kind| + 1..] == id
  {
    kind + "_" + id
  }

  /** dehashEntity: refuses a key in which `kind` does not occur (anywhere, not only as a
      prefix); otherwise drops the first |kind| + 1 characters, as `substr` does, giving
      the empty string when the key is shorter. */
  function DehashEntity(kind: string, hash: string): (r: Result<string>)
    ensures r.Ok? <==> exists i :: OccursAt(hash, kind, i)
    ensures r.Err? ==> r.error == Plain("Invalid hash type")
    ensures r.Ok? && |kind| + 1 <= |hash| ==> hash == hash[..|kind| + 1] + r.value
    ensures r.Ok? && |kind| + 1 > |hash| ==> r.value == ""
  {
    if !Includes(hash, kind) then Err(Plain("Invalid hash type"))
    else if |kind| + 1 <= |hash| then Ok(hash[|kind| + 1..])
    else Ok("")
  }

  /** Decoding a key recovers the id it was built from, for every type and id. */
  lemma HashRoundTrip(kind: string, id: string)
    ensures DehashEntity(kind, HashEntity(kind, id)) == Ok(id)
  {
    var h := HashEntity(kind, id);
    assert h[..|kind|] == kind;
    assert OccursAt(h, kind, 0);
    assert h[|kind| + 1..] == id;
  }

  /** For a fixed type, distinct ids give distinct keys. */
  lemma HashInjective(kind: string, a: string, b: string)
    requires HashEntity(kind, a) == HashEntity(kind, b)
    ensures a == b
  {
    HashRoundTrip(kind, a);
    HashRoundTrip(kind, b);
  }

  /** The check is a substring test: a key of another type that merely contains `kind`
      is accepted, and decoded by position. */
  lemma DehashChecksSubstringOnly()
    ensures DehashEntity("slot", "candidate_slot") == Ok("date_slot")
  {
    assert OccursAt("candidate_slot", "slot", 10);
  }

  /** Keys of different types can coincide: the slot "filter_x" and the slot-filter "x". */
  lemma KeysOfDifferentTypesCollide()
    ensures HashEntity("slot", "filter_x") == HashEntity("slot_filter", "x")
  {
  }
}
