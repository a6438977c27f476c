/** Validation of a participants file (src/fileUtils.js, validateFileData): the parsed file
    must be an array of subjects, each with a non-empty string id that no earlier subject
    used and a non-empty array of string slots. The first failing check throws an error
    carrying its code. */
module FileUtils {
  import opened Results
  import opened JsValues

  /** The message of a per-subject error: the subject is numbered from 1. */
  function SubjectMessage(file: string, index: nat, tail: string): string
  {
    "In file " + file + ", subject num. " + NatStr(index + 1) + tail
  }

  /** The message of a non-string slot, numbering the subject and the slot from 1. */
  function SlotMessage(file: string, index: nat, slot: nat): string
  {
    "In file " + file + ", in subject num. " +
    (NatStr(index + 1) + (", slot num. " + (NatStr(slot + 1) + " is not a String.")))
  }

  /** The same message as the source builds it: the slot's callback parameter `index`
      shadows the subject's, so both numbers are the slot's position. */
  function SlotMessageAsWritten(file: string, index: nat, slot: nat): string
  {
    "In file " + file + ", in subject num. " +
    (NatStr(slot + 1) + (", slot num. " + (NatStr(slot + 1) + " is not a String.")))
  }

  /** A numeral followed by text that starts with a non-digit determines both. */
  lemma NumeralsAgree(m: nat, x: string, n: nat, y: string)
    requires x != [] && y != [] && !IsDigit(x[0]) && !IsDigit(y[0])
    requires NatStr(m) + x == NatStr(n) + y
    ensures m == n && x == y
  {
    DigitsPrefix(NatStr(m), x, NatStr(n), y);
    NatStrInjective(m, n);
    assert x == (NatStr(m) + x)[|NatStr(m)|..];
    assert y == (NatStr(n) + y)[|NatStr(n)|..];
  }

  /** The message names the subject and the slot: different positions get different
      messages. */
  lemma SlotMessageNamesSubject(file: string, a: nat, i: nat, b: nat, j: nat)
    requires SlotMessage(file, a, i) == SlotMessage(file, b, j)
    ensures a == b && i == j
  {
    var head := "In file " + file + ", in subject num. ";
    var mid := ", slot num. ";
    var tail := " is not a String.";
    var x := mid + (NatStr(i + 1) + tail);
    var y := mid + (NatStr(j + 1) + tail);
    var r1 := NatStr(a + 1) + x;
    var r2 := NatStr(b + 1) + y;
    assert r1 == (head + r1)[|head|..];
    assert r2 == (head + r2)[|head|..];
    NumeralsAgree(a + 1, x, b + 1, y);
    assert NatStr(i + 1) + tail == x[|mid|..];
    assert NatStr(j + 1) + tail == y[|mid|..];
    NumeralsAgree(i + 1, tail, j + 1, tail);
  }

  /** As written, a bad first slot of the second subject is reported exactly as one of
      the first subject. */
  lemma SlotMessageAsWrittenLosesSubject(file: string)
    ensures SlotMessageAsWritten(file, 1, 0) == SlotMessage(file, 0, 0)
    ensures SlotMessage(file, 1, 0) != SlotMessage(file, 0, 0)
  {
    if SlotMessage(file, 1, 0) == SlotMessage(file, 0, 0) {
      SlotMessageNamesSubject(file, 1, 0, 0, 0);
    }
  }

  /** The position of the first slot from `j` on that is not a string, if any. */
  function FirstNonString(slots: seq<Value>, j: nat): (r: Option<nat>)
    requires j <= |slots|
    ensures r.None? <==> forall i :: j <= i < |slots| ==> slots[i].Str?
    ensures r.Some? ==> j <= r.value < |slots| && !slots[r.value].Str? &&
                        forall i :: j <= i < r.value ==> slots[i].Str?
    decreases |slots| - j
  {
    if j == |slots| then None
    else if !slots[j].Str? then Some(j)
    else FirstNonString(slots, j + 1)
  }

  /** A subject that passes every check except the duplicate one. */
  predicate WellFormed(subject: Value)
  {
    !Nullish(subject) &&
    Prop(subject, "id").Str? && Prop(subject, "id").s != "" &&
    Prop(subject, "slots").Arr? && Prop(subject, "slots").items != [] &&
    forall i :: 0 <= i < |Prop(subject, "slots").items| ==> Prop(subject, "slots").items[i].Str?
  }

  /** The id a subject adds to the set of ids seen. */
  function Id(subject: Value): string
  {
    if Prop(subject, "id").Str? then Prop(subject, "id").s else ""
  }

  /** Why a subject is refused: reading its id throws (it is null or undefined), one of
      the shape checks with codes 4 to 8 fails, its id repeats an earlier one, or one of
      its slots is not a string. */
  datatype Failure =
    | Unreadable(subject: Value)
    | Malformed(kind: ErrorKind, index: nat)
    | Repeated(id: string)
    | BadSlot(index: nat, slot: nat)

  /** The text after the subject's number in the message of a shape check. */
  function Detail(kind: ErrorKind): string
  {
    match kind
    case MissingInputId => " does not feature a required 'id' attribute."
    case InvalidInputId => " 'id' is not a String."
    case MissingInputSlots => " does not feature a required 'slots' attribute."
    case InvalidInputSlots => " 'slots' attribute should be an Array."
    case _ => " 'slots' Array is empty."
  }

  /** The object the source throws for a failure, with its code and its message. */
  function Render(f: Failure, file: string): Thrown
  {
    match f
    case Unreadable(v) => ReadError(v, "id")
    case Malformed(kind, index) => Coded(kind, SubjectMessage(file, index, Detail(kind)))
    case Repeated(id) => Coded(DuplicateInputId, "In file " + file + ", subject " + id + " is declared twice.")
    case BadSlot(index, slot) => Coded(InvalidSlotIdentifier, SlotMessageAsWritten(file, index, slot))
  }

  /** As thrown, a bad first slot of the second subject cannot be told apart from one of
      the first subject. */
  lemma RenderedSlotErrorsCollide(file: string)
    ensures Render(BadSlot(1, 0), file) == Render(BadSlot(0, 0), file)
  {
    assert SlotMessageAsWritten(file, 1, 0) == SlotMessageAsWritten(file, 0, 0);
  }

  /** The first check subject number `index` fails, in the order the source makes them,
      given the ids of the subjects before it; None when it passes. */
  function Fault(subject: Value, seen: set<string>, index: nat): Option<Failure>
  {
    if Nullish(subject) then Some(Unreadable(subject))
    else
      var id := Prop(subject, "id");
      var slots := Prop(subject, "slots");
      if Falsy(id) then Some(Malformed(MissingInputId, index))
      else if !id.Str? then Some(Malformed(InvalidInputId, index))
      else if Falsy(slots) then Some(Malformed(MissingInputSlots, index))
      else if !slots.Arr? then Some(Malformed(InvalidInputSlots, index))
      else if slots.items == [] then Some(Malformed(EmptyInputSlots, index))
      else if id.s in seen then Some(Repeated(id.s))
      else match FirstNonString(slots.items, 0)
        case Some(j) => Some(BadSlot(index, j))
        case None => None
  }

  /** A subject passes exactly when it is well formed with an id not seen before. An
      empty-string id counts as missing (code 4), and a repeated id (code 9) is only
      reported for a subject with a string id and a non-empty array of slots. */
  lemma FaultPasses(subject: Value, seen: set<string>, index: nat)
    ensures Fault(subject, seen, index).None? <==> WellFormed(subject) && Id(subject) !in seen
    ensures !Nullish(subject) && Prop(subject, "id") == Str("") ==>
              Fault(subject, seen, index) == Some(Malformed(MissingInputId, index))
    ensures Fault(subject, seen, index).Some? && Fault(subject, seen, index).value.Repeated? ==>
              Id(subject) in seen && Prop(subject, "id").Str? && Prop(subject, "id").s != "" &&
              Prop(subject, "slots").Arr? && Prop(subject, "slots").items != []
  {
  }

  /** The first failure among the subjects from `k` on, checked in order, each with the
      ids of the subjects before it. */
  function Scan(subjects: seq<Value>, k: nat, seen: set<string>): Option<Failure>
    requires k <= |subjects|
    decreases |subjects| - k
  {
    if k == |subjects| then None
    else match Fault(subjects[k], seen, k)
      case Some(f) => Some(f)
      case None => Scan(subjects, k + 1, seen + {Id(subjects[k])})
  }

  /** validateFileData(data, file_name): true, or the error of the first failure. */
  function Validate(data: Value, fileName: Value): (r: Result<bool>)
    ensures !data.Arr? ==> r.Err? && r.error.Coded? && r.error.kind == InvalidInputFileFormat
    ensures data.Arr? ==> (r.Ok? <==> Scan(data.items, 0, {}).None?)
    ensures r.Ok? ==> r.value
  {
    if !data.Arr? then
      Err(Coded(InvalidInputFileFormat, "The file " + ToStr(fileName) + " should be an options JSON Array."))
    else match Scan(data.items, 0, {})
      case None => Ok(true)
      case Some(f) => Err(Render(f, ToStr(fileName)))
  }

  /** The ids of the given subjects. */
  function IdsOf(subjects: seq<Value>): set<string>
  {
    set s | s in subjects :: Id(s)
  }

  /** Every subject before `k` passed its checks against the ids of the subjects before
      it. */
  predicate PassesUpTo(subjects: seq<Value>, k: nat)
    requires k <= |subjects|
  {
    forall i :: 0 <= i < k ==> Fault(subjects[i], IdsOf(subjects[..i]), i).None?
  }

  /** Subject `k` is the first to fail. */
  predicate FailsFirstAt(subjects: seq<Value>, k: nat)
    requires k < |subjects|
  {
    PassesUpTo(subjects, k) && Fault(subjects[k], IdsOf(subjects[..k]), k).Some?
  }

  /** Scanning from `k`, after every earlier subject passed: no failure exactly when every
      subject passes, and otherwise the failure of the first subject to fail. */
  lemma {:induction false} ScanFirstFault(subjects: seq<Value>, k: nat)
    requires k <= |subjects| && PassesUpTo(subjects, k)
    ensures Scan(subjects, k, IdsOf(subjects[..k])).None? <==> PassesUpTo(subjects, |subjects|)
    ensures Scan(subjects, k, IdsOf(subjects[..k])).Some? ==>
              exists j :: k <= j < |subjects| && FailsFirstAt(subjects, j) &&
                          Scan(subjects, k, IdsOf(subjects[..k])) == Fault(subjects[j], IdsOf(subjects[..j]), j)
    decreases |subjects| - k
  {
    if k < |subjects| {
      var seen := IdsOf(subjects[..k]);
      match Fault(subjects[k], seen, k)
      case Some(f) =>
        assert FailsFirstAt(subjects, k);
      case None =>
        assert subjects[..k + 1] == subjects[..k] + [subjects[k]];
        assert IdsOf(subjects[..k + 1]) == seen + {Id(subjects[k])};
        ScanFirstFault(subjects, k + 1);
    } else {
      assert subjects[..k] == subjects;
    }
  }

  /** A file is accepted exactly when it is an array whose subjects are all well formed
      with pairwise distinct ids; the result is then true, never false. */
  lemma ValidateAccepts(data: Value, fileName: Value)
    ensures Validate(data, fileName).Ok? ==> Validate(data, fileName) == Ok(true)
    ensures Validate(data, fileName).Ok? <==>
              data.Arr? && (forall k :: 0 <= k < |data.items| ==> WellFormed(data.items[k])) &&
              forall a, b :: 0 <= a < b < |data.items| ==> Id(data.items[a]) != Id(data.items[b])
  {
    if data.Arr? {
      var s := data.items;
      assert IdsOf(s[..0]) == {};
      ScanFirstFault(s, 0);
      PassesIffDistinct(s);
    }
  }

  lemma PassesIffDistinct(s: seq<Value>)
    ensures PassesUpTo(s, |s|) <==>
              (forall k :: 0 <= k < |s| ==> WellFormed(s[k])) &&
              forall a, b :: 0 <= a < b < |s| ==> Id(s[a]) != Id(s[b])
  {
    if PassesUpTo(s, |s|) {
      forall a, b | 0 <= a < b < |s|
        ensures Id(s[a]) != Id(s[b])
      {
        assert s[a] in s[..b];
        FaultPasses(s[b], IdsOf(s[..b]), b);
      }
      forall k | 0 <= k < |s|
        ensures WellFormed(s[k])
      {
        FaultPasses(s[k], IdsOf(s[..k]), k);
      }
    }
    if (forall k :: 0 <= k < |s| ==> WellFormed(s[k])) &&
       (forall a, b :: 0 <= a < b < |s| ==> Id(s[a]) != Id(s[b])) {
      forall i | 0 <= i < |s|
        ensures Fault(s[i], IdsOf(s[..i]), i).None?
      {
        FaultPasses(s[i], IdsOf(s[..i]), i);
      }
    }
  }

  /** A file that is an array is refused exactly when some subject fails a check while
      every subject before it passed every check, and the error is that subject's first
      failure. A file that is not an array is refused with code 3 before any subject is
      looked at. */
  lemma ValidateRejects(data: Value, fileName: Value)
    ensures !data.Arr? ==> Validate(data, fileName).Err? && Validate(data, fileName).error.Coded? &&
                           Code(Validate(data, fileName).error.kind) == 3
    ensures data.Arr? && Validate(data, fileName).Err? ==>
              exists k :: 0 <= k < |data.items| && FailsFirstAt(data.items, k) &&
                Validate(data, fileName).error ==
                Render(Fault(data.items[k], IdsOf(data.items[..k]), k).value, ToStr(fileName))
    ensures forall k :: data.Arr? && 0 <= k < |data.items| && FailsFirstAt(data.items, k) ==>
              Validate(data, fileName) ==
              Err(Render(Fault(data.items[k], IdsOf(data.items[..k]), k).value, ToStr(fileName)))
  {
    if data.Arr? {
      var s := data.items;
      assert IdsOf(s[..0]) == {};
      ScanFirstFault(s, 0);
      forall k | 0 <= k < |s| && FailsFirstAt(s, k)
        ensures Scan(s, 0, {}) == Fault(s[k], IdsOf(s[..k]), k)
      {
        FirstFaultUnique(s, k);
      }
    }
  }

  /** At most one subject is the first to fail. */
  lemma FirstFaultUnique(s: seq<Value>, k: nat)
    requires k < |s| && FailsFirstAt(s, k)
    ensures Scan(s, 0, {}) == Fault(s[k], IdsOf(s[..k]), k)
    ensures forall j :: 0 <= j < |s| && FailsFirstAt(s, j) ==> j == k
  {
    assert IdsOf(s[..0]) == {};
    ScanFirstFault(s, 0);
    var j :| 0 <= j < |s| && FailsFirstAt(s, j) && Scan(s, 0, {}) == Fault(s[j], IdsOf(s[..j]), j);
  }

  /** validateFileData, as the loop over the subjects and their slots. */
  method ValidateFileData(data: Value, fileName: Value) returns (r: Result<bool>)
    ensures r == Validate(data, fileName)
  {
    var file := ToStr(fileName);
    if !data.Arr? {
      return Err(Coded(InvalidInputFileFormat, "The file " + file + " should be an options JSON Array."));
    }
    var subjects := data.items;
    var ids: set<string> := {};
    var k := 0;
    while k < |subjects|
      invariant 0 <= k <= |subjects|
      invariant Scan(subjects, 0, {}) == Scan(subjects, k, ids)
    {
      var subject := subjects[k];
      if Nullish(subject) {
        return Err(Render(Unreadable(subject), file));
      }
      var id := Prop(subject, "id");
      if Falsy(id) {
        return Err(Render(Malformed(MissingInputId, k), file));
      }
      if !id.Str? {
        return Err(Render(Malformed(InvalidInputId, k), file));
      }
      var slots := Prop(subject, "slots");
      if Falsy(slots) {
        return Err(Render(Malformed(MissingInputSlots, k), file));
      }
      if !slots.Arr? {
        return Err(Render(Malformed(InvalidInputSlots, k), file));
      }
      if |slots.items| == 0 {
        return Err(Render(Malformed(EmptyInputSlots, k), file));
      }
      if id.s in ids {
        return Err(Render(Repeated(id.s), file));
      }
      ids := ids + {id.s};
      var j := 0;
      while j < |slots.items|
        invariant 0 <= j <= |slots.items|
        invariant FirstNonString(slots.items, j) == FirstNonString(slots.items, 0)
      {
        if !slots.items[j].Str? {
          return Err(Render(BadSlot(k, j), file));
        }
        j := j + 1;
      }
      k := k + 1;
    }
    return Ok(true);
  }
}
