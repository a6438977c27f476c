/** The older participants-file reader (src/fileReader.js). Its validateFileData is the
    same sequence of checks, codes and messages as the one in src/fileUtils.js, so it is
    specified by the same definition, `FileUtils.Validate`. */
module FileReader {
  import opened Results
  import opened JsValues
  import FileUtils

  /** validateFileData of the reader: true, or the first error. */
  method ValidateFileData(data: Value, fileName: Value) returns (r: Result<bool>)
    ensures r.Ok? ==> r.value && data.Arr?
    ensures r == FileUtils.Validate(data, fileName)
  {
    r := FileUtils.ValidateFileData(data, fileName);
    FileUtils.ValidateAccepts(data, fileName);
  }

  /** A subject with the given id and slots. */
  function Subject(id: Value, slots: Value): Value
  {
    Obj(map["id" := id, "slots" := slots])
  }

  /** The first failure the checks find in one-subject files the reader's tests
      exercise: an accepted file, a missing id (code 4) and a non-string id (5). */
  lemma IdFailures()
    ensures FileUtils.Scan([Subject(Str("a"), Arr([Str("s1")]))], 0, {}) == None
    ensures FileUtils.Scan([Obj(map["slots" := Arr([Str("s1")])])], 0, {}) ==
            Some(FileUtils.Malformed(MissingInputId, 0))
    ensures FileUtils.Scan([Subject(Num(7), Arr([Str("s1")]))], 0, {}) ==
            Some(FileUtils.Malformed(InvalidInputId, 0))
  {
  }

  /** Missing slots (code 6), slots that are not an array (7) and empty slots (8). */
  lemma SlotsFailures()
    ensures FileUtils.Scan([Obj(map["id" := Str("a")])], 0, {}) ==
            Some(FileUtils.Malformed(MissingInputSlots, 0))
    ensures FileUtils.Scan([Subject(Str("a"), Str("s1"))], 0, {}) ==
            Some(FileUtils.Malformed(InvalidInputSlots, 0))
    ensures FileUtils.Scan([Subject(Str("a"), Arr([]))], 0, {}) ==
            Some(FileUtils.Malformed(EmptyInputSlots, 0))
  {
  }

  /** A repeated id (code 9) and a non-string slot (10), reported with its position. */
  lemma RepeatAndSlotFailures()
    ensures FileUtils.Scan([Subject(Str("a"), Arr([Str("s1")])), Subject(Str("a"), Arr([Str("s2")]))], 0, {}) ==
            Some(FileUtils.Repeated("a"))
    ensures FileUtils.Scan([Subject(Str("a"), Arr([Str("s1"), Num(1)]))], 0, {}) ==
            Some(FileUtils.BadSlot(0, 1))
  {
  }

  /** A repeated id is only reported once the repeating subject's shape checks pass, and a
      subject's failure is reported before any later subject is looked at. */
  lemma CheckOrder()
    ensures FileUtils.Scan([Subject(Str("a"), Arr([Str("s1")])), Subject(Str("a"), Arr([]))], 0, {}) ==
            Some(FileUtils.Malformed(EmptyInputSlots, 1))
    ensures FileUtils.Scan([Subject(Str("a"), Arr([Num(1)])), Subject(Num(7), Arr([Str("s1")]))], 0, {}) ==
            Some(FileUtils.BadSlot(0, 0))
  {
  }

  /** A file that is not an array is refused with code 3, whatever its name. */
  lemma RefusesNonArray(fileName: Value)
    ensures FileUtils.Validate(Obj(map[]), fileName).Err?
    ensures FileUtils.Validate(Obj(map[]), fileName).error.Coded?
    ensures Code(FileUtils.Validate(Obj(map[]), fileName).error.kind) == 3
  {
  }
}
