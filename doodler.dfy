/** Conversion of scheduling-poll data into the matcher's participants, and back
    (src/doodler.js). A poll has `options` (the time slots, each with a `start` and an
    `end`) and `participants` (each with a `name`, an `id` and one `preferences` entry per
    option). A participant becomes `{id: name_id, slots}` with the slots of the options it
    picked; an internal `name_id` key is split back at its last underscore. */
module Doodler {
  import opened Results
  import opened JsValues

  /** A participant as the matcher reads it. A picked preference past the last option
      contributes `undefined`, so the slots are values, not strings. */
  datatype Participant = Participant(id: string, slots: seq<Value>)

  /** What convertDoodleData returns. */
  datatype Poll = Poll(slots: seq<string>, participants: seq<Participant>)

  /** What convertDoodlesData returns. */
  datatype Converted = Converted(candidates: seq<Participant>, interviewers: seq<Participant>)

  /** A participant key split back into the poll's name and id. */
  datatype Entity = Entity(name: string, id: string)

  /** The slot of an option, `${start}-${end}`. */
  function SlotString(option: Value): string
  {
    ToStr(Prop(option, "start")) + "-" + ToStr(Prop(option, "end"))
  }

  /** `options.map(({start, end}) => ...)`: destructuring a null or undefined option
      throws. */
  function SlotsOf(options: seq<Value>): (r: Result<seq<string>>)
    ensures r.Ok? <==> forall i :: 0 <= i < |options| ==> !Nullish(options[i])
    ensures r.Ok? ==> |r.value| == |options| &&
                      forall i :: 0 <= i < |options| ==> r.value[i] == SlotString(options[i])
  {
    if options == [] then Ok([])
    else if Nullish(options[0]) then Err(ReadError(options[0], "start"))
    else match SlotsOf(options[1..])
      case Err(e) => Err(e)
      case Ok(rest) => Ok([SlotString(options[0])] + rest)
  }

  /** The slot at an option index, `undefined` past the last option. */
  function SlotAt(slots: seq<string>, i: nat): Value
  {
    if i < |slots| then Str(slots[i]) else Undefined
  }

  /** The forEach over the preferences from index `i` on: the slot of every truthy
      preference is pushed, in order. */
  function Picked(prefs: seq<Value>, slots: seq<string>, i: nat): seq<Value>
    requires i <= |prefs|
    decreases |prefs| - i
  {
    if i == |prefs| then []
    else (if !Falsy(prefs[i]) then [SlotAt(slots, i)] else []) + Picked(prefs, slots, i + 1)
  }

  /** The indices from `i` on whose preference is truthy, in ascending order. */
  function PickedIndices(prefs: seq<Value>, i: nat): seq<nat>
    requires i <= |prefs|
    decreases |prefs| - i
  {
    if i == |prefs| then []
    else (if !Falsy(prefs[i]) then [i] else []) + PickedIndices(prefs, i + 1)
  }

  /** The indices listed are exactly the truthy preferences' positions, ascending. */
  lemma {:induction false} PickedIndicesSpec(prefs: seq<Value>, i: nat)
    requires i <= |prefs|
    ensures forall j :: j in PickedIndices(prefs, i) <==> i <= j < |prefs| && !Falsy(prefs[j])
    ensures forall k :: 0 <= k < |PickedIndices(prefs, i)| ==> i <= PickedIndices(prefs, i)[k] < |prefs|
    ensures forall a, b :: 0 <= a < b < |PickedIndices(prefs, i)| ==>
              PickedIndices(prefs, i)[a] < PickedIndices(prefs, i)[b]
    decreases |prefs| - i
  {
    if i < |prefs| {
      PickedIndicesSpec(prefs, i + 1);
      var later := PickedIndices(prefs, i + 1);
      if !Falsy(prefs[i]) {
        assert PickedIndices(prefs, i) == [i] + later;
      }
    }
  }

  /** The slots pushed are exactly those of the truthy preferences, in index order. */
  lemma {:induction false} PickedSlots(prefs: seq<Value>, slots: seq<string>, i: nat)
    requires i <= |prefs|
    ensures |Picked(prefs, slots, i)| == |PickedIndices(prefs, i)|
    ensures forall k :: 0 <= k < |Picked(prefs, slots, i)| ==>
              Picked(prefs, slots, i)[k] == SlotAt(slots, PickedIndices(prefs, i)[k])
    decreases |prefs| - i
  {
    if i < |prefs| {
      PickedSlots(prefs, slots, i + 1);
      var rest, later := Picked(prefs, slots, i + 1), PickedIndices(prefs, i + 1);
      if !Falsy(prefs[i]) {
        var p, q := Picked(prefs, slots, i), PickedIndices(prefs, i);
        assert p == [SlotAt(slots, i)] + rest;
        assert q == [i] + later;
        forall k | 0 <= k < |p| ensures p[k] == SlotAt(slots, q[k]) {
          if k > 0 {
            assert p[k] == rest[k - 1] && q[k] == later[k - 1];
          }
        }
      }
    }
  }

  /** One participant: its key joins name and id with an underscore; its preferences must
      be an array. */
  function ParticipantOf(p: Value, slots: seq<string>): (r: Result<Participant>)
    ensures r.Ok? <==> !Nullish(p) && Prop(p, "preferences").Arr?
    ensures r.Ok? ==> r.value.id == ToStr(Prop(p, "name")) + "_" + ToStr(Prop(p, "id")) &&
                      r.value.slots == Picked(Prop(p, "preferences").items, slots, 0)
  {
    if Nullish(p) then Err(ReadError(p, "name"))
    else
      var prefs := Prop(p, "preferences");
      if Nullish(prefs) then Err(ReadError(prefs, "forEach"))
      else if !prefs.Arr? then Err(Plain("participant.preferences.forEach is not a function"))
      else Ok(Participant(ToStr(Prop(p, "name")) + "_" + ToStr(Prop(p, "id")), Picked(prefs.items, slots, 0)))
  }

  /** `participants.map(...)`: the first participant that cannot be converted throws. */
  function ParticipantsOf(ps: seq<Value>, slots: seq<string>): (r: Result<seq<Participant>>)
    ensures r.Ok? <==> forall k :: 0 <= k < |ps| ==> ParticipantOf(ps[k], slots).Ok?
    ensures r.Ok? ==> |r.value| == |ps| &&
                      forall k :: 0 <= k < |ps| ==> ParticipantOf(ps[k], slots) == Ok(r.value[k])
  {
    if ps == [] then Ok([])
    else match ParticipantOf(ps[0], slots)
      case Err(e) => Err(e)
      case Ok(p) =>
        match ParticipantsOf(ps[1..], slots)
        case Err(e) => Err(e)
        case Ok(rest) => Ok([p] + rest)
  }

  /** What the format checks of convertDoodleData can find wrong with a poll. */
  datatype FormatFault =
    | NoPoll(doodle: Value)
    | OptionsMissing
    | OptionsNotArray
    | ParticipantsMissing
    | ParticipantsNotArray

  /** The format checks of convertDoodleData, in order; None when they pass. Reading a
      field of a missing poll fails before any check. */
  function FormatCheck(doodle: Value): (r: Option<FormatFault>)
    ensures r.None? <==> !Nullish(doodle) && Prop(doodle, "options").Arr? && Prop(doodle, "participants").Arr?
    ensures r == Some(NoPoll(doodle)) <==> Nullish(doodle)
  {
    if Nullish(doodle) then Some(NoPoll(doodle))
    else if Falsy(Prop(doodle, "options")) then Some(OptionsMissing)
    else if !Prop(doodle, "options").Arr? then Some(OptionsNotArray)
    else if Falsy(Prop(doodle, "participants")) then Some(ParticipantsMissing)
    else if !Prop(doodle, "participants").Arr? then Some(ParticipantsNotArray)
    else None
  }

  /** The error each fault throws: the TypeError of the missing poll, or code 15 with the
      field and the problem named. */
  function RenderFormat(f: FormatFault): (t: Thrown)
    ensures !f.NoPoll? <==> t.Coded? && t.kind == InvalidDoodleDataFormat
  {
    match f
    case NoPoll(doodle) => ReadError(doodle, "options")
    case OptionsMissing => Coded(InvalidDoodleDataFormat, "Doodle data 'options' field is missing.")
    case OptionsNotArray => Coded(InvalidDoodleDataFormat, "Doodle data 'options' field should be of type Array.")
    case ParticipantsMissing => Coded(InvalidDoodleDataFormat, "Doodle data 'participants' field is missing.")
    case ParticipantsNotArray =>
      Coded(InvalidDoodleDataFormat, "Doodle data 'participants' field should be of type Array.")
  }

  /** convertDoodleData: the slots of the options, then the participants. */
  function ConvertDoodleData(doodle: Value): (r: Result<Poll>)
    ensures FormatCheck(doodle).Some? ==> r == Err(RenderFormat(FormatCheck(doodle).value))
    ensures r.Ok? ==> Prop(doodle, "options").Arr? && Prop(doodle, "participants").Arr? &&
                      |r.value.slots| == |Prop(doodle, "options").items| &&
                      |r.value.participants| == |Prop(doodle, "participants").items|
  {
    match FormatCheck(doodle)
    case Some(f) => Err(RenderFormat(f))
    case None =>
      match SlotsOf(Prop(doodle, "options").items)
      case Err(e) => Err(e)
      case Ok(slots) =>
        match ParticipantsOf(Prop(doodle, "participants").items, slots)
        case Err(e) => Err(e)
        case Ok(participants) => Ok(Poll(slots, participants))
  }

  /** A poll convertDoodleData accepts: the format checks pass, no option is missing and
      every participant is present with an array of preferences. */
  predicate Convertible(doodle: Value)
  {
    FormatCheck(doodle).None? &&
    (forall i :: 0 <= i < |Prop(doodle, "options").items| ==> !Nullish(Prop(doodle, "options").items[i])) &&
    forall k :: 0 <= k < |Prop(doodle, "participants").items| ==>
      var p := Prop(doodle, "participants").items[k];
      !Nullish(p) && Prop(p, "preferences").Arr?
  }

  /** convertDoodleData succeeds exactly on convertible polls, and a poll that fails the
      format checks is refused with the error of the first check it fails. */
  lemma ConvertAccepts(doodle: Value)
    ensures ConvertDoodleData(doodle).Ok? <==> Convertible(doodle)
    ensures FormatCheck(doodle).Some? ==> ConvertDoodleData(doodle) == Err(RenderFormat(FormatCheck(doodle).value))
  {
    if FormatCheck(doodle).None? && SlotsOf(Prop(doodle, "options").items).Ok? {
      var slots := SlotsOf(Prop(doodle, "options").items).value;
      var ps := Prop(doodle, "participants").items;
      assert ParticipantsOf(ps, slots).Ok? <==> forall k :: 0 <= k < |ps| ==> !Nullish(ps[k]) && Prop(ps[k], "preferences").Arr?;
    }
  }

  /** A converted poll has one slot per option, `start-end`, in option order, and one
      participant per poll participant, in order, keyed `name_id`, with the slots of its
      truthy preferences in index order. */
  lemma ConvertedPoll(doodle: Value)
    ensures ConvertDoodleData(doodle).Ok? ==>
              var poll := ConvertDoodleData(doodle).value;
              var options := Prop(doodle, "options").items;
              var ps := Prop(doodle, "participants").items;
              |poll.slots| == |options| &&
              (forall i :: 0 <= i < |options| ==> poll.slots[i] == SlotString(options[i])) &&
              |poll.participants| == |ps| &&
              forall k :: 0 <= k < |ps| ==>
                poll.participants[k].id == ToStr(Prop(ps[k], "name")) + "_" + ToStr(Prop(ps[k], "id")) &&
                |poll.participants[k].slots| == |PickedIndices(Prop(ps[k], "preferences").items, 0)| &&
                forall j :: 0 <= j < |poll.participants[k].slots| ==>
                  poll.participants[k].slots[j] ==
                  SlotAt(poll.slots, PickedIndices(Prop(ps[k], "preferences").items, 0)[j])
  {
    var r := ConvertDoodleData(doodle);
    if r.Ok? {
      var ps := Prop(doodle, "participants").items;
      forall k | 0 <= k < |ps|
        ensures r.value.participants[k].slots == Picked(Prop(ps[k], "preferences").items, r.value.slots, 0)
      {
        assert ParticipantOf(ps[k], r.value.slots) == Ok(r.value.participants[k]);
      }
      forall k | 0 <= k < |ps|
        ensures |r.value.participants[k].slots| == |PickedIndices(Prop(ps[k], "preferences").items, 0)|
        ensures forall j :: 0 <= j < |r.value.participants[k].slots| ==>
                  r.value.participants[k].slots[j] ==
                  SlotAt(r.value.slots, PickedIndices(Prop(ps[k], "preferences").items, 0)[j])
      {
        PickedSlots(Prop(ps[k], "preferences").items, r.value.slots, 0);
      }
    }
  }

  /** The poll format errors: a missing options field, options that are not an array,
      then the same for participants, each refused with code 15. */
  lemma FormatChecks(options: Value, participants: Value)
    requires options.Arr? && participants.Arr?
    ensures FormatCheck(Obj(map["participants" := participants])) == Some(OptionsMissing)
    ensures FormatCheck(Obj(map["options" := Str("options"), "participants" := participants])) ==
            Some(OptionsNotArray)
    ensures FormatCheck(Obj(map["options" := options])) == Some(ParticipantsMissing)
    ensures FormatCheck(Obj(map["options" := options, "participants" := Str("participants")])) ==
            Some(ParticipantsNotArray)
    ensures FormatCheck(Obj(map["options" := options, "participants" := participants])) == None
  {
  }

  /** The options of the two polls, read as verifyDoodleSlotsMatching reads them: a
      missing poll or missing options throw. */
  function BothOptions(first: Value, second: Value): Result<(Value, Value)>
  {
    if Nullish(first) then Err(ReadError(first, "options"))
    else if Nullish(Prop(first, "options")) then Err(ReadError(Prop(first, "options"), "toString"))
    else if Nullish(second) then Err(ReadError(second, "options"))
    else if Nullish(Prop(second, "options")) then Err(ReadError(Prop(second, "options"), "toString"))
    else Ok((Prop(first, "options"), Prop(second, "options")))
  }

  /** verifyDoodleSlotsMatching as written: the two options arrays compared through
      `toString`. */
  function SlotsMatchingAsWritten(first: Value, second: Value): (r: Result<bool>)
    ensures r.Err? <==> BothOptions(first, second).Err?
    ensures r.Ok? && Prop(first, "options") == Prop(second, "options") ==> r.value
  {
    match BothOptions(first, second)
    case Err(e) => Err(e)
    case Ok((a, b)) => Ok(ToStr(a) == ToStr(b))
  }

  /** As written, options that are objects all print as "[object Object]": the comparison
      only sees how many options each poll has. */
  lemma AsWrittenComparesCounts(first: Value, second: Value)
    requires BothOptions(first, second).Ok?
    requires Prop(first, "options").Arr? && Prop(second, "options").Arr?
    requires forall i :: 0 <= i < |Prop(first, "options").items| ==> Prop(first, "options").items[i].Obj?
    requires forall i :: 0 <= i < |Prop(second, "options").items| ==> Prop(second, "options").items[i].Obj?
    ensures SlotsMatchingAsWritten(first, second) ==
            Ok(|Prop(first, "options").items| == |Prop(second, "options").items|)
  {
    var a := Prop(first, "options").items;
    var b := Prop(second, "options").items;
    ObjectsString(a);
    ObjectsString(b);
  }

  /** Two one-option polls, 1-2 and 3-4: the comparison as written finds them matching. */
  lemma AsWrittenMatchesDifferentSlots()
    ensures SlotsMatchingAsWritten(Obj(map["options" := Arr([Obj(map["start" := Num(1), "end" := Num(2)])])]),
                                   Obj(map["options" := Arr([Obj(map["start" := Num(3), "end" := Num(4)])])])) ==
            Ok(true)
  {
    var first := Obj(map["options" := Arr([Obj(map["start" := Num(1), "end" := Num(2)])])]);
    var second := Obj(map["options" := Arr([Obj(map["start" := Num(3), "end" := Num(4)])])]);
    AsWrittenComparesCounts(first, second);
  }

  /** Those two polls offer different slots, 1-2 against 3-4. */
  lemma DifferentSlotsOffered()
    ensures SlotsOf([Obj(map["start" := Num(1), "end" := Num(2)])]) == Ok(["1-2"])
    ensures SlotsOf([Obj(map["start" := Num(3), "end" := Num(4)])]) == Ok(["3-4"])
  {
    OneSlot(1, 2);
    OneSlot(3, 4);
  }

  lemma OneSlot(start: nat, end: nat)
    requires start < 10 && end < 10
    ensures SlotsOf([Obj(map["start" := Num(start), "end" := Num(end)])]) ==
            Ok([[DigitChar(start), '-', DigitChar(end)]])
  {
    var o := Obj(map["start" := Num(start), "end" := Num(end)]);
    assert Prop(o, "start") == Num(start) && Prop(o, "end") == Num(end);
    assert ToStr(Num(start)) == [DigitChar(start)] && ToStr(Num(end)) == [DigitChar(end)];
    assert SlotString(o) == [DigitChar(start), '-', DigitChar(end)];
    assert [o][1..] == [];
    assert SlotsOf([o][1..]) == Ok([]);
    assert SlotsOf([o]) == Ok([SlotString(o)] + []);
    assert [SlotString(o)] + [] == [SlotString(o)];
  }

  /** The intended comparison: the two polls offer the same options. */
  function SlotsMatching(first: Value, second: Value): (r: Result<bool>)
    ensures r.Err? <==> BothOptions(first, second).Err?
    ensures r.Ok? ==> (r.value <==> Prop(first, "options") == Prop(second, "options"))
    ensures r == Ok(true) ==> SlotsMatchingAsWritten(first, second) == Ok(true)
  {
    match BothOptions(first, second)
    case Err(e) => Err(e)
    case Ok((a, b)) => Ok(a == b)
  }

  /** convertDoodlesData as written: the polls' options must print alike, then each poll is
      converted, the candidates' first. */
  function ConvertDoodlesData(candidates: Value, interviewers: Value): (r: Result<Converted>)
    ensures SlotsMatchingAsWritten(candidates, interviewers).Err? ==>
              r == Err(SlotsMatchingAsWritten(candidates, interviewers).error)
    ensures SlotsMatchingAsWritten(candidates, interviewers) == Ok(false) ==> r == Err(CodeOnly(UnmatchingDoodles))
    ensures SlotsMatchingAsWritten(candidates, interviewers) == Ok(true) ==> r == Both(candidates, interviewers)
    ensures r.Ok? ==> SlotsMatchingAsWritten(candidates, interviewers) == Ok(true) &&
                      ConvertDoodleData(candidates).Ok? && ConvertDoodleData(interviewers).Ok? &&
                      r.value == Converted(ConvertDoodleData(candidates).value.participants,
                                           ConvertDoodleData(interviewers).value.participants)
  {
    match SlotsMatchingAsWritten(candidates, interviewers)
    case Err(e) => Err(e)
    case Ok(same) =>
      if !same then Err(CodeOnly(UnmatchingDoodles))
      else Both(candidates, interviewers)
  }

  /** Both polls converted, the candidates' first; the first failure is thrown. */
  function Both(candidates: Value, interviewers: Value): (r: Result<Converted>)
    ensures r.Ok? <==> ConvertDoodleData(candidates).Ok? && ConvertDoodleData(interviewers).Ok?
    ensures r.Ok? ==> r.value == Converted(ConvertDoodleData(candidates).value.participants,
                                           ConvertDoodleData(interviewers).value.participants)
  {
    match ConvertDoodleData(candidates)
    case Err(e) => Err(e)
    case Ok(c) =>
      match ConvertDoodleData(interviewers)
      case Err(e) => Err(e)
      case Ok(i) => Ok(Converted(c.participants, i.participants))
  }

  /** convertDoodlesData with the intended comparison: the polls must offer the same
      options. */
  function ConvertDoodlesDataCorrected(candidates: Value, interviewers: Value): (r: Result<Converted>)
    ensures SlotsMatching(candidates, interviewers).Err? ==> r == Err(SlotsMatching(candidates, interviewers).error)
    ensures SlotsMatching(candidates, interviewers) == Ok(false) ==> r == Err(CodeOnly(UnmatchingDoodles))
    ensures SlotsMatching(candidates, interviewers) == Ok(true) ==> r == Both(candidates, interviewers)
    ensures r.Ok? ==> SlotsMatching(candidates, interviewers) == Ok(true) &&
                      ConvertDoodleData(candidates).Ok? && ConvertDoodleData(interviewers).Ok?
  {
    match SlotsMatching(candidates, interviewers)
    case Err(e) => Err(e)
    case Ok(same) =>
      if !same then Err(CodeOnly(UnmatchingDoodles))
      else Both(candidates, interviewers)
  }

  /** The 1-2 and 3-4 polls without participants: as written they are converted, while
      the intended comparison refuses them with code 16. */
  lemma AsWrittenConvertsDifferentPolls()
    ensures var first := Obj(map["options" := Arr([Obj(map["start" := Num(1), "end" := Num(2)])]),
                                 "participants" := Arr([])]);
            var second := Obj(map["options" := Arr([Obj(map["start" := Num(3), "end" := Num(4)])]),
                                  "participants" := Arr([])]);
            ConvertDoodlesData(first, second) == Ok(Converted([], [])) &&
            ConvertDoodlesDataCorrected(first, second) == Err(CodeOnly(UnmatchingDoodles))
  {
    var o1 := Obj(map["start" := Num(1), "end" := Num(2)]);
    var o2 := Obj(map["start" := Num(3), "end" := Num(4)]);
    var first := Obj(map["options" := Arr([o1]), "participants" := Arr([])]);
    var second := Obj(map["options" := Arr([o2]), "participants" := Arr([])]);
    AsWrittenComparesCounts(first, second);
    DifferentSlotsOffered();
    assert ParticipantsOf([], ["1-2"]) == Ok([]);
    assert ParticipantsOf([], ["3-4"]) == Ok([]);
    assert o1.fields["start"] != o2.fields["start"];
  }

  /** Converted polls declare their slots from one catalogue: candidates and interviewers
      name the same slot strings, in the same order. */
  lemma ConvertedShareSlots(candidates: Value, interviewers: Value)
    requires ConvertDoodlesDataCorrected(candidates, interviewers).Ok?
    ensures ConvertDoodleData(candidates).value.slots == ConvertDoodleData(interviewers).value.slots
    ensures ConvertDoodlesDataCorrected(candidates, interviewers).value ==
            Converted(ConvertDoodleData(candidates).value.participants,
                      ConvertDoodleData(interviewers).value.participants)
  {
  }

  /** The position of the last occurrence of `c` in `s`, or -1. */
  function LastIndexOf(s: string, c: char): (r: int)
    ensures -1 <= r < |s|
    ensures r == -1 <==> c !in s
    ensures r >= 0 ==> s[r] == c
    ensures forall j :: r < j < |s| ==> s[j] != c
  {
    if s == [] then -1
    else if s[|s| - 1] == c then |s| - 1
    else
      var r := LastIndexOf(s[..|s| - 1], c);
      assert s == s[..|s| - 1] + [s[|s| - 1]];
      r
  }

  /** convertToDoodleEntity: the text before the last underscore is the name, the text
      after it the id. */
  function ConvertToDoodleEntity(entity: string): (r: Result<Entity>)
    ensures r.Ok? <==> '_' in entity
    ensures r.Err? ==> r.error == Plain("Missing entity separator")
    ensures r.Ok? ==> entity == r.value.name + "_" + r.value.id && '_' !in r.value.id
  {
    var i := LastIndexOf(entity, '_');
    if i == -1 then Err(Plain("Missing entity separator"))
    else
      assert entity == entity[..i] + "_" + entity[i + 1..];
      Ok(Entity(entity[..i], entity[i + 1..]))
  }

  /** Splitting a key built from a name and an id without underscores gives both back;
      the name may contain underscores. */
  lemma EntityRoundTrip(name: string, id: string)
    requires '_' !in id
    ensures ConvertToDoodleEntity(name + "_" + id) == Ok(Entity(name, id))
  {
    var key := name + "_" + id;
    forall j | |name| < j < |key| ensures key[j] != '_' {
      assert key[j] == id[j - |name| - 1];
    }
    assert key[|name|] == '_';
    assert LastIndexOf(key, '_') == |name|;
    assert key[..|name|] == name;
    assert key[|name| + 1..] == id;
  }

  /** A converted participant's key splits back into its poll name and id, when the id
      has no underscore. */
  lemma ParticipantKeyRoundTrip(doodle: Value, k: int)
    requires ConvertDoodleData(doodle).Ok?
    requires 0 <= k < |Prop(doodle, "participants").items|
    requires '_' !in ToStr(Prop(Prop(doodle, "participants").items[k], "id"))
    ensures var p := Prop(doodle, "participants").items[k];
            ConvertToDoodleEntity(ConvertDoodleData(doodle).value.participants[k].id) ==
            Ok(Entity(ToStr(Prop(p, "name")), ToStr(Prop(p, "id"))))
  {
    var p := Prop(doodle, "participants").items[k];
    ConvertedPoll(doodle);
    EntityRoundTrip(ToStr(Prop(p, "name")), ToStr(Prop(p, "id")));
  }

  /** The name part of a key, as doodlifyOutput uses it. */
  function NameOf(key: string): string
    requires '_' in key
  {
    ConvertToDoodleEntity(key).value.name
  }

  /** The state of the per-interviewer counts after the renaming, and the error that
      stopped it, if any. */
  datatype Renaming = Renaming(counts: map<string, int>, error: Option<Thrown>)

  predicate DistinctKeys(keys: seq<string>)
  {
    forall a, b :: 0 <= a < b < |keys| ==> keys[a] != keys[b]
  }

  /** The keys still to rename are distinct entries of the counts. */
  predicate Pending(counts: map<string, int>, keys: seq<string>)
  {
    DistinctKeys(keys) && forall i :: 0 <= i < |keys| ==> keys[i] in counts
  }

  /** One renaming: the count of `key` is stored under `name`, then `key` is deleted. */
  function Step(counts: map<string, int>, key: string, name: string): (r: map<string, int>)
    requires key in counts
    ensures name != key ==> name in r && r[name] == counts[key]
    ensures key !in r
    ensures forall k :: k != key && k != name ==> (k in r <==> k in counts) && (k in r ==> r[k] == counts[k])
  {
    counts[name := counts[key]] - {key}
  }

  /** After one renaming the later keys are still pending. */
  lemma StepKeepsPending(counts: map<string, int>, keys: seq<string>, name: string)
    requires keys != [] && Pending(counts, keys)
    ensures Pending(Step(counts, keys[0], name), keys[1..])
  {
    forall i | 0 <= i < |keys[1..]| ensures keys[1..][i] in Step(counts, keys[0], name) {
      assert keys[1..][i] == keys[i + 1] != keys[0];
    }
  }

  /** The renaming loop of doodlifyOutput over `keys`: each key's count is stored under the
      key's name and the key is deleted; a key without an underscore throws, leaving the
      renamings done so far. */
  function RenameFrom(counts: map<string, int>, keys: seq<string>): (r: Renaming)
    requires Pending(counts, keys)
    ensures r.error.Some? ==> r.error.value == Plain("Missing entity separator")
    decreases |keys|
  {
    if keys == [] then Renaming(counts, None)
    else match ConvertToDoodleEntity(keys[0])
      case Err(e) => Renaming(counts, Some(e))
      case Ok(entity) =>
        StepKeepsPending(counts, keys, entity.name);
        RenameFrom(Step(counts, keys[0], entity.name), keys[1..])
  }

  /** The renaming throws exactly when some key has no underscore, and then with the
      separator error. */
  lemma {:induction false} RenameError(counts: map<string, int>, keys: seq<string>)
    requires Pending(counts, keys)
    ensures RenameFrom(counts, keys).error.Some? <==> exists k :: k in keys && '_' !in k
    ensures RenameFrom(counts, keys).error.Some? ==>
              RenameFrom(counts, keys).error == Some(Plain("Missing entity separator"))
    decreases |keys|
  {
    if keys != [] && '_' in keys[0] {
      StepKeepsPending(counts, keys, NameOf(keys[0]));
      RenameError(Step(counts, keys[0], NameOf(keys[0])), keys[1..]);
      assert forall k :: k in keys <==> k == keys[0] || k in keys[1..];
    }
  }

  /** Every key has an underscore, and the name parts are pairwise distinct and are not
      themselves keys. */
  predicate NamesFresh(keys: seq<string>)
  {
    (forall i :: 0 <= i < |keys| ==> '_' in keys[i]) &&
    (forall a, b :: 0 <= a < b < |keys| ==> NameOf(keys[a]) != NameOf(keys[b])) &&
    (forall a, b :: 0 <= a < |keys| && 0 <= b < |keys| ==> NameOf(keys[a]) != keys[b])
  }

  lemma FreshTail(keys: seq<string>)
    requires keys != [] && NamesFresh(keys)
    ensures NamesFresh(keys[1..])
  {
    var rest := keys[1..];
    forall i | 0 <= i < |rest| ensures rest[i] == keys[i + 1] { }
  }

  /** An entry that is neither a key nor the name of one is left as it was, whether or not
      the renaming throws. */
  lemma {:induction false} RenameKeepsOther(counts: map<string, int>, keys: seq<string>, k: string)
    requires Pending(counts, keys)
    requires forall i :: 0 <= i < |keys| ==> k != keys[i]
    requires forall i :: 0 <= i < |keys| && '_' in keys[i] ==> k != NameOf(keys[i])
    ensures k in RenameFrom(counts, keys).counts <==> k in counts
    ensures k in counts ==> RenameFrom(counts, keys).counts[k] == counts[k]
    decreases |keys|
  {
    if keys != [] && '_' in keys[0] {
      var moved := Step(counts, keys[0], NameOf(keys[0]));
      StepKeepsPending(counts, keys, NameOf(keys[0]));
      forall i | 0 <= i < |keys[1..]| ensures keys[1..][i] == keys[i + 1] { }
      RenameKeepsOther(moved, keys[1..], k);
    }
  }

  /** With fresh names, no key survives the renaming. */
  lemma {:induction false} RenameDropsKeys(counts: map<string, int>, keys: seq<string>, i: nat)
    requires Pending(counts, keys) && NamesFresh(keys) && i < |keys|
    ensures keys[i] !in RenameFrom(counts, keys).counts
    decreases |keys|
  {
    var moved := Step(counts, keys[0], NameOf(keys[0]));
    StepKeepsPending(counts, keys, NameOf(keys[0]));
    forall j | 0 <= j < |keys[1..]| ensures keys[1..][j] == keys[j + 1] { }
    if i == 0 {
      RenameKeepsOther(moved, keys[1..], keys[0]);
    } else {
      FreshTail(keys);
      RenameDropsKeys(moved, keys[1..], i - 1);
    }
  }

  /** With fresh names, every key's count ends up under its name. */
  lemma {:induction false} RenameKeepsName(counts: map<string, int>, keys: seq<string>, i: nat)
    requires Pending(counts, keys) && NamesFresh(keys) && i < |keys|
    ensures NameOf(keys[i]) in RenameFrom(counts, keys).counts
    ensures RenameFrom(counts, keys).counts[NameOf(keys[i])] == counts[keys[i]]
    decreases |keys|
  {
    var moved := Step(counts, keys[0], NameOf(keys[0]));
    StepKeepsPending(counts, keys, NameOf(keys[0]));
    forall j | 0 <= j < |keys[1..]| ensures keys[1..][j] == keys[j + 1] { }
    if i == 0 {
      RenameKeepsOther(moved, keys[1..], NameOf(keys[0]));
    } else {
      FreshTail(keys);
      RenameKeepsName(moved, keys[1..], i - 1);
    }
  }

  /** When every key has an underscore and the names are fresh, the renaming replaces
      each key by its name with the same count and leaves every other entry as it was. */
  lemma RenameMovesCounts(counts: map<string, int>, keys: seq<string>)
    requires Pending(counts, keys) && NamesFresh(keys)
    ensures RenameFrom(counts, keys).error.None?
    ensures forall i :: 0 <= i < |keys| ==>
              NameOf(keys[i]) in RenameFrom(counts, keys).counts &&
              RenameFrom(counts, keys).counts[NameOf(keys[i])] == counts[keys[i]]
    ensures forall i :: 0 <= i < |keys| ==> keys[i] !in RenameFrom(counts, keys).counts
    ensures forall k :: (forall i :: 0 <= i < |keys| ==> k != keys[i] && k != NameOf(keys[i])) ==>
              (k in RenameFrom(counts, keys).counts <==> k in counts) &&
              (k in counts ==> RenameFrom(counts, keys).counts[k] == counts[k])
  {
    RenameError(counts, keys);
    forall i | 0 <= i < |keys|
      ensures NameOf(keys[i]) in RenameFrom(counts, keys).counts
      ensures RenameFrom(counts, keys).counts[NameOf(keys[i])] == counts[keys[i]]
      ensures keys[i] !in RenameFrom(counts, keys).counts
    {
      RenameKeepsName(counts, keys, i);
      RenameDropsKeys(counts, keys, i);
    }
    forall k | forall i :: 0 <= i < |keys| ==> k != keys[i] && k != NameOf(keys[i])
      ensures k in RenameFrom(counts, keys).counts <==> k in counts
      ensures k in counts ==> RenameFrom(counts, keys).counts[k] == counts[k]
    {
      RenameKeepsOther(counts, keys, k);
    }
  }

  /** Two interviewers that share a name are merged into one entry, the later count
      overwriting the earlier one. */
  lemma SharedNameKeepsLater(name: string, id1: string, id2: string, c1: int, c2: int)
    requires '_' !in id1 && '_' !in id2 && id1 != id2
    ensures var k1, k2 := name + "_" + id1, name + "_" + id2;
            Pending(map[k1 := c1, k2 := c2], [k1, k2]) &&
            RenameFrom(map[k1 := c1, k2 := c2], [k1, k2]) == Renaming(map[name := c2], None)
  {
    var k1, k2 := name + "_" + id1, name + "_" + id2;
    EntityRoundTrip(name, id1);
    EntityRoundTrip(name, id2);
    assert |name| < |k1| && |name| < |k2|;
    var counts := map[k1 := c1, k2 := c2];
    var first := Step(counts, k1, name);
    assert first == map[k2 := c2, name := c1];
    assert Step(first, k2, name) == map[name := c2];
    assert [k1, k2][1..] == [k2];
    assert [k2][1..] == [];
    assert RenameFrom(first, [k2]) == RenameFrom(Step(first, k2, name), []);
  }

  /** The `interviews_per_interviewer` object that doodlifyOutput renames in place. */
  class InterviewCounts {
    var counts: map<string, int>

    constructor (counts: map<string, int>)
      ensures this.counts == counts
    {
      this.counts := counts;
    }

    /** The key renaming of doodlifyOutput, over `keys`, the object's keys as
        `Object.keys` lists them. */
    method RenameToNames(keys: seq<string>) returns (error: Option<Thrown>)
      requires DistinctKeys(keys) && forall k :: k in keys <==> k in counts
      modifies this
      ensures Renaming(counts, error) == RenameFrom(old(counts), keys)
    {
      var i := 0;
      while i < |keys|
        invariant 0 <= i <= |keys|
        invariant Pending(counts, keys[i..])
        invariant RenameFrom(old(counts), keys) == RenameFrom(counts, keys[i..])
      {
        var key := keys[i];
        assert keys[i..][1..] == keys[i + 1..];
        match ConvertToDoodleEntity(key)
        case Err(e) =>
          return Some(e);
        case Ok(entity) =>
          StepKeepsPending(counts, keys[i..], entity.name);
          counts := counts[entity.name := counts[key]];
          counts := counts - {key};
        i := i + 1;
      }
      return None;
    }
  }
}
