/** The two interactive store operations. The user's typed answers are
    parameters: `add_birthdays` reads a count and then, per birthday, a
    date-time, a name and a phone number; `update_birthday` reads a 1-based
    position and the replacement's three answers. */
module Prompts {
  import opened Wrappers
  import opened Strings
  import opened Calendar
  import opened RecordStore

  /** The answers typed for one birthday, exactly as `input()` returns them. */
  datatype Answers = Answers(when: string, name: string, phone: string)

  /** The record the answers describe, when the date-time parses. */
  function ToRecord(a: Answers): (r: Option<Record>)
    ensures r.Some? <==> Parse(a.when).Some?
    ensures r.Some? ==>
      r.value.when == Parse(a.when).value && r.value.name == a.name && r.value.phone == a.phone
  {
    match Parse(a.when)
    case None => None
    case Some(t) => Some(Record(t, a.name, a.phone))
  }

  // ---------------------------------------------------------------------------
  // add_birthdays

  /** The records `add_birthdays` saves when `n` birthdays were asked for:
      the answers in turn, until `n` were taken, the answers run out (end of
      input raises), or a date-time does not parse (raises, abandoning the
      rest of the batch). */
  function Accepted(n: int, entries: seq<Answers>): (rs: seq<Record>)
    ensures |rs| <= |entries|
    ensures |rs| <= (if n < 0 then 0 else n)
    ensures forall i :: 0 <= i < |rs| ==> ToRecord(entries[i]) == Some(rs[i])
    ensures |rs| < n && |rs| < |entries| ==> ToRecord(entries[|rs|]).None?
    decreases |entries|
  {
    if n <= 0 || |entries| == 0 then []
    else
      match ToRecord(entries[0])
      case None => []
      case Some(r) =>
        var rest := Accepted(n - 1, entries[1..]);
        [r] + rest
  }

  /** `add_birthdays`: the count is read with `int()`; a count that is not an
      integer raises before anything is saved, and a count of zero or less
      asks for nothing. Each accepted record is appended as it is read. */
  function AddBirthdays(f: File, countAnswer: string, entries: seq<Answers>): File {
    match ParseInt(countAnswer)
    case None => f
    case Some(n) => SaveAll(f, Accepted(n, entries))
  }

  /** The records a batch adds, given how the count answer reads. */
  function BatchOf(countAnswer: string, entries: seq<Answers>): seq<Record> {
    match ParseInt(countAnswer)
    case None => []
    case Some(n) => Accepted(n, entries)
  }

  /** A count that is not an integer, or is not positive, adds nothing and
      leaves the file exactly as it was. */
  lemma AddNothing(f: File, countAnswer: string, entries: seq<Answers>)
    requires ParseInt(countAnswer).None? || ParseInt(countAnswer).value <= 0
    ensures AddBirthdays(f, countAnswer, entries) == f
  {
  }

  /** The file gains exactly the serialised lines of the accepted records,
      appended after its old content; when none is accepted it is untouched
      (a missing file stays missing). */
  lemma AddContent(f: File, countAnswer: string, entries: seq<Answers>)
    ensures |BatchOf(countAnswer, entries)| == 0 ==> AddBirthdays(f, countAnswer, entries) == f
    ensures |BatchOf(countAnswer, entries)| > 0 ==>
      AddBirthdays(f, countAnswer, entries) == Some(Content(f) + Serialize(BatchOf(countAnswer, entries)))
  {
    SaveAllContent(f, BatchOf(countAnswer, entries));
  }

  /** The first unparsable date-time among the answers asked for ends the
      batch: with `k` the position of that entry, exactly the records of
      entries 0..k-1 are added, in order. */
  lemma AddStopsAtBadTimestamp(n: int, entries: seq<Answers>, k: nat)
    requires k < n && k < |entries|
    requires ToRecord(entries[k]).None?
    requires forall i :: 0 <= i < k ==> ToRecord(entries[i]).Some?
    ensures |Accepted(n, entries)| == k
    ensures forall i :: 0 <= i < k ==> Accepted(n, entries)[i] == ToRecord(entries[i]).value
  {
  }

  /** With all answers valid and at least `n` of them, exactly `n` records
      are added, in the order they were typed. */
  lemma AddTakesCount(n: nat, entries: seq<Answers>)
    requires n <= |entries|
    requires forall i :: 0 <= i < n ==> ToRecord(entries[i]).Some?
    ensures |Accepted(n, entries)| == n
  {
  }

  /** Loading after a batch: a file that ends a line and reads completely,
      extended by storable records, loads as its old records followed by the
      batch. */
  lemma LoadAfterAdd(f: File, countAnswer: string, entries: seq<Answers>)
    requires EndsLine(Content(f)) && FullyLoadable(f)
    requires AllStorable(BatchOf(countAnswer, entries))
    ensures Load(AddBirthdays(f, countAnswer, entries)) == Load(f) + BatchOf(countAnswer, entries)
  {
    LoadSaveAll(f, BatchOf(countAnswer, entries));
  }

  // ---------------------------------------------------------------------------
  // update_birthday

  /** The 0-based position the answer selects, when it is an integer whose
      1-based position exists in the loaded list. */
  function Selection(f: File, indexAnswer: string): (i: Option<nat>)
    ensures i.Some? <==> (ParseInt(indexAnswer).Some? && 1 <= ParseInt(indexAnswer).value <= |Load(f)|)
    ensures i.Some? ==> i.value == ParseInt(indexAnswer).value - 1
  {
    match ParseInt(indexAnswer)
    case None => None
    case Some(n) => if 0 <= n - 1 < |Load(f)| then Some(n - 1) else None
  }

  /** `update_birthday`: load, select by 1-based position, parse the
      replacement, put it in place, rewrite the whole file. A position that
      is not an integer or out of range, or a replacement date-time that does
      not parse, leaves the file as it was. */
  function UpdateBirthday(f: File, indexAnswer: string, replacement: Answers): (g: File)
    ensures ParseInt(indexAnswer).None? ==> g == f
    ensures ParseInt(indexAnswer).Some? && !(1 <= ParseInt(indexAnswer).value <= |Load(f)|) ==> g == f
    ensures Parse(replacement.when).None? ==> g == f
  {
    var rs := Load(f);
    match Selection(f, indexAnswer)
    case None => f
    case Some(i) =>
      match ToRecord(replacement)
      case None => f
      case Some(r) => Overwrite(f, rs[i := r])
  }

  /** The list is shown numbered from 1 (`list_birthdays`): typing the
      number shown beside a record, with whitespace around it if any,
      selects that record. */
  lemma SelectShown(f: File, i: nat, before: string, after: string)
    requires i < |Load(f)|
    requires AllIntSpace(before) && AllIntSpace(after)
    ensures Selection(f, before + IntText(i + 1) + after) == Some(i)
  {
    IntRoundTrip(i + 1, before, after);
  }

  /** After a successful update, loading gives the old list with only the
      selected position replaced: same length, every other record unchanged. */
  lemma LoadAfterUpdate(f: File, indexAnswer: string, replacement: Answers)
    requires Selection(f, indexAnswer).Some? && ToRecord(replacement).Some?
    requires Storable(ToRecord(replacement).value)
    ensures |Load(UpdateBirthday(f, indexAnswer, replacement))| == |Load(f)|
    ensures Load(UpdateBirthday(f, indexAnswer, replacement))[Selection(f, indexAnswer).value]
      == ToRecord(replacement).value
    ensures forall j :: 0 <= j < |Load(f)| && j != Selection(f, indexAnswer).value ==>
      Load(UpdateBirthday(f, indexAnswer, replacement))[j] == Load(f)[j]
  {
    var rs := Load(f);
    var i := Selection(f, indexAnswer).value;
    var r := ToRecord(replacement).value;
    var rs' := rs[i := r];
    assert AllStorable(rs') by {
      forall j | 0 <= j < |rs'| ensures Storable(rs'[j]) {
        if j != i {
          assert rs'[j] == rs[j];
        }
      }
    }
  }

  /** A successful update rewrites the file from the loaded list: it then
      holds one line per loaded record and nothing else, so lines the loader
      skipped or never reached are gone. */
  lemma UpdateRewritesFile(f: File, indexAnswer: string, replacement: Answers)
    requires Selection(f, indexAnswer).Some? && ToRecord(replacement).Some?
    ensures UpdateBirthday(f, indexAnswer, replacement)
      == Some(Serialize(Load(f)[Selection(f, indexAnswer).value := ToRecord(replacement).value]))
    ensures Storable(ToRecord(replacement).value) ==>
      |Lines(Content(UpdateBirthday(f, indexAnswer, replacement)))| == |Load(f)|
  {
    var rs := Load(f);
    var i := Selection(f, indexAnswer).value;
    var r := ToRecord(replacement).value;
    var rs' := rs[i := r];
    if Storable(r) {
      assert AllStorable(rs') by {
        forall j | 0 <= j < |rs'| ensures Storable(rs'[j]) {
          if j != i {
            assert rs'[j] == rs[j];
          }
        }
      }
      KindsOfLines(rs');
      LinesTerminated(LinesOf(rs'));
    }
  }
}
