/** The record store: a text file with one `timestamp,name,phone` line per
    birthday. The file is its content as a string, or `None` when it does not
    exist; every operation is a function from the old file to the new one. */
module RecordStore {
  import opened Wrappers
  import opened Strings
  import opened Calendar

  /** One birthday: when to send the greeting, to whom, at which number. */
  datatype Record = Record(when: DateTime, name: string, phone: string)

  /** The file's content, `None` while the file does not exist. */
  type File = Option<string>

  /** What a read of the file yields (a missing file reads as nothing). */
  function Content(f: File): string {
    match f
    case Some(c) => c
    case None => ""
  }

  // ---------------------------------------------------------------------------
  // Writing

  /** The line written for a record, without its terminator. */
  function LineOf(r: Record): string {
    Format(r.when) + "," + r.name + "," + r.phone
  }

  function LinesOf(rs: seq<Record>): (ls: seq<string>)
    ensures |ls| == |rs|
    ensures forall i :: 0 <= i < |rs| ==> ls[i] == LineOf(rs[i])
  {
    seq(|rs|, i requires 0 <= i < |rs| => LineOf(rs[i]))
  }

  /** The text written for a list of records, each line ended by "\n". */
  function Serialize(rs: seq<Record>): string {
    Terminated(LinesOf(rs))
  }

  /** A record whose line reads back as the same record: the name and phone
      hold no field separator and no line terminator, and the phone does not
      end in whitespace (the strip applied to each line read would remove it). */
  predicate Storable(r: Record) {
    && ',' !in r.name && '\n' !in r.name && '\r' !in r.name
    && ',' !in r.phone && '\n' !in r.phone && '\r' !in r.phone
    && (|r.phone| == 0 || !IsSpace(r.phone[|r.phone| - 1]))
  }

  predicate AllStorable(rs: seq<Record>) {
    forall i :: 0 <= i < |rs| ==> Storable(rs[i])
  }

  // ---------------------------------------------------------------------------
  // Reading

  /** How the loader treats one line. */
  datatype LineKind =
    | Blank                    // nothing but whitespace: ignored
    | Malformed                // not exactly three comma-separated fields: skipped
    | BadTimestamp             // the first field does not parse: loading ends
    | Holds(record: Record)    // a birthday

  /** One line as the loader sees it: stripped of surrounding whitespace,
      split on ',', the first of exactly three fields parsed as a date-time. */
  function Classify(line: string): (k: LineKind)
    ensures k.Blank? <==> forall i :: 0 <= i < |line| ==> IsSpace(line[i])
    ensures k.Holds? && NoBreaks(line) ==> Storable(k.record)
  {
    var t := Strip(line);
    StripEmpty(line);
    if |t| == 0 then Blank
    else
      var parts := Split(t, ',');
      if |parts| != 3 then Malformed
      else match Parse(parts[0])
        case None => BadTimestamp
        case Some(w) =>
          var r := Record(w, parts[1], parts[2]);
          assert NoBreaks(line) ==> Storable(r) by {
            if NoBreaks(line) {
              HeldIsStorable(line, parts);
            }
          }
          Holds(r)
  }

  /** The outcome of reading lines in order: the records gathered, and
      whether every line was read (`false` when a bad date-time ended it). */
  datatype Scan = Scan(records: seq<Record>, complete: bool)

  /** How the loader treats each of the given lines. */
  function Kinds(lines: seq<string>): (ks: seq<LineKind>)
    ensures |ks| == |lines|
    ensures forall i :: 0 <= i < |lines| ==> ks[i] == Classify(lines[i])
  {
    seq(|lines|, i requires 0 <= i < |lines| => Classify(lines[i]))
  }

  /** The loop of `load_birthdays` over the classified lines. A bad
      date-time raises inside the loop; the handler returns what was gathered
      before it. */
  function ScanKinds(ks: seq<LineKind>): (s: Scan)
    ensures |s.records| <= |ks|
    decreases |ks|
  {
    if |ks| == 0 then Scan([], true)
    else
      match ks[0]
      case Blank => ScanKinds(ks[1..])
      case Malformed => ScanKinds(ks[1..])
      case BadTimestamp => Scan([], false)
      case Holds(r) =>
        var rest := ScanKinds(ks[1..]);
        Scan([r] + rest.records, rest.complete)
  }

  /** Reading the file's lines in order. */
  function ScanText(c: string): Scan {
    ScanKinds(Kinds(Lines(c)))
  }

  /** `load_birthdays`: the records of the file, up to the first line whose
      date-time does not parse; nothing for a missing file. Every record it
      returns can be written back and read again unchanged. */
  function Load(f: File): (rs: seq<Record>)
    ensures f.None? ==> rs == []
    ensures AllStorable(rs)
  {
    match f
    case None => []
    case Some(c) =>
      LoadedStorable(c);
      ScanText(c).records
  }

  /** The file reads completely: no line stops the loader early. */
  predicate FullyLoadable(f: File) {
    ScanText(Content(f)).complete
  }

  // ---------------------------------------------------------------------------
  // Store operations

  /** `save_birthday`: append one line (creating the file if needed). */
  function Save(f: File, r: Record): File {
    Some(Content(f) + Serialize([r]))
  }

  /** `overwrite_birthdays`: replace the content with the given records. */
  function Overwrite(f: File, rs: seq<Record>): (g: File)
    ensures AllStorable(rs) ==> Load(g) == rs
  {
    assert AllStorable(rs) ==> Load(Some(Serialize(rs))) == rs by {
      if AllStorable(rs) {
        LoadSerialize(rs);
      }
    }
    Some(Serialize(rs))
  }

  /** `clear_birthdays`: truncate the file, creating it if needed. */
  function Clear(f: File): (g: File)
    ensures g.Some? && Load(g) == []
    ensures FullyLoadable(g) && EndsLine(Content(g))
  {
    Some("")
  }

  // ---------------------------------------------------------------------------
  // Facts about single lines

  lemma StripEmpty(s: string)
    ensures |Strip(s)| == 0 <==> forall i :: 0 <= i < |s| ==> IsSpace(s[i])
  {
    if forall i :: 0 <= i < |s| ==> IsSpace(s[i]) {
      StripAllSpace(s);
    } else {
      var l := LeadingSpace(s);
      var rest := s[l..];
      assert l < |s|;
      assert !IsSpace(rest[0]);
      assert TrailingSpace(rest) < |rest|;
    }
  }

  lemma StripNoBreaks(s: string)
    requires NoBreaks(s)
    ensures NoBreaks(Strip(s))
  {
    var l := LeadingSpace(s);
    var rest := s[l..];
    assert forall k :: 0 <= k < |rest| ==> rest[k] == s[l + k];
  }

  lemma JoinThree(a: string, b: string, c: string, sep: char)
    ensures Join([a, b, c], sep) == a + [sep] + b + [sep] + c
  {
    assert [a, b, c][1..] == [b, c];
    assert [b, c][1..] == [c];
    assert Join([c], sep) == c;
    assert Join([b, c], sep) == b + [sep] + c;
  }

  /** The fields of a record read from a line hold no terminator, and the last
      one does not end in whitespace. */
  lemma HeldIsStorable(line: string, parts: seq<string>)
    requires NoBreaks(line)
    requires parts == Split(Strip(line), ',') && |parts| == 3
    requires |Strip(line)| > 0
    ensures ',' !in parts[1] && '\n' !in parts[1] && '\r' !in parts[1]
    ensures ',' !in parts[2] && '\n' !in parts[2] && '\r' !in parts[2]
    ensures |parts[2]| == 0 || !IsSpace(parts[2][|parts[2]| - 1])
  {
    var t := Strip(line);
    StripNoBreaks(line);
    JoinThree(parts[0], parts[1], parts[2], ',');
    assert parts == [parts[0], parts[1], parts[2]];
    assert t == parts[0] + [','] + parts[1] + [','] + parts[2];
    var o1 := |parts[0]| + 1;
    var o2 := o1 + |parts[1]| + 1;
    forall k | 0 <= k < |parts[1]| ensures !IsBreak(parts[1][k]) {
      assert parts[1][k] == t[o1 + k];
    }
    forall k | 0 <= k < |parts[2]| ensures !IsBreak(parts[2][k]) {
      assert parts[2][k] == t[o2 + k];
    }
    assert |parts[2]| > 0 ==> parts[2][|parts[2]| - 1] == t[|t| - 1];
  }

  /** The timestamp text holds no separator and no terminator, and begins
      with a digit. */
  lemma FormatPlain(t: DateTime)
    ensures ',' !in Format(t) && NoBreaks(Format(t))
    ensures IsDigit(Format(t)[0])
  {
    var s := Format(t);
    var y, mo, d := Pad(t.year, 4), Pad(t.month, 2), Pad(t.day, 2);
    var h, mi, se := Pad(t.hour, 2), Pad(t.minute, 2), Pad(t.second, 2);
    assert s == y + "-" + mo + "-" + d + " " + h + ":" + mi + ":" + se;
    forall k | 0 <= k < |s| ensures s[k] != ',' && !IsBreak(s[k]) {
      assert IsDigit(s[k]) || s[k] in "- :";
    }
    assert s[0] == y[0];
  }

  /** A storable record's line is read back as that record. */
  lemma ClassifyLineOf(r: Record)
    requires Storable(r)
    ensures NoBreaks(LineOf(r))
    ensures Classify(LineOf(r)) == Holds(r)
  {
    var ts := Format(r.when);
    var line := LineOf(r);
    FormatPlain(r.when);
    JoinThree(ts, r.name, r.phone, ',');
    assert line == ts + [','] + r.name + [','] + r.phone;
    var o1 := |ts| + 1;
    var o2 := o1 + |r.name| + 1;
    forall k | 0 <= k < |line| ensures !IsBreak(line[k]) {
      if k < |ts| {
        assert line[k] == ts[k];
      } else if o1 <= k < o2 - 1 {
        assert line[k] == r.name[k - o1];
      } else if o2 <= k {
        assert line[k] == r.phone[k - o2];
      }
    }
    assert line[0] == ts[0];
    assert !IsSpace(line[|line| - 1]) by {
      if |r.phone| > 0 {
        assert line[|line| - 1] == r.phone[|r.phone| - 1];
      } else {
        assert line[|line| - 1] == ',';
      }
    }
    StripKeeps(line);
    SplitJoin([ts, r.name, r.phone], ',');
    ParseFormat(r.when);
  }

  // ---------------------------------------------------------------------------
  // Reading what was written

  /** What the loader gathers from lines without terminators is storable. */
  lemma LoadedStorable(c: string)
    ensures AllStorable(ScanText(c).records)
  {
    var lines := Lines(c);
    LinesNoBreaks(c);
    var ks := Kinds(lines);
    forall i | 0 <= i < |ks| && ks[i].Holds? ensures Storable(ks[i].record) {
      assert NoBreaks(lines[i]);
    }
    ScanKindsStorable(ks);
  }

  lemma {:induction false} ScanKindsStorable(ks: seq<LineKind>)
    requires forall i :: 0 <= i < |ks| && ks[i].Holds? ==> Storable(ks[i].record)
    ensures AllStorable(ScanKinds(ks).records)
    decreases |ks|
  {
    if |ks| > 0 {
      ScanKindsStorable(ks[1..]);
    }
  }

  /** Every record held, in order, and nothing else. */
  function AllHeld(rs: seq<Record>): (ks: seq<LineKind>)
    ensures |ks| == |rs|
  {
    seq(|rs|, i requires 0 <= i < |rs| => Holds(rs[i]))
  }

  /** The lines of storable records are each classified as holding their
      record. */
  lemma KindsOfLines(rs: seq<Record>)
    requires AllStorable(rs)
    ensures Kinds(LinesOf(rs)) == AllHeld(rs)
    ensures forall j :: 0 <= j < |LinesOf(rs)| ==> NoBreaks(LinesOf(rs)[j])
  {
    forall j | 0 <= j < |rs| ensures Kinds(LinesOf(rs))[j] == AllHeld(rs)[j] && NoBreaks(LinesOf(rs)[j]) {
      ClassifyLineOf(rs[j]);
    }
  }

  lemma {:induction false} ScanAllHeld(rs: seq<Record>)
    ensures ScanKinds(AllHeld(rs)) == Scan(rs, true)
    decreases |rs|
  {
    if |rs| > 0 {
      assert AllHeld(rs)[1..] == AllHeld(rs[1..]);
      ScanAllHeld(rs[1..]);
      assert rs == [rs[0]] + rs[1..];
    }
  }

  /** Round trip: loading what `overwrite_birthdays` wrote gives the same
      records in the same order. */
  lemma LoadSerialize(rs: seq<Record>)
    requires AllStorable(rs)
    ensures Load(Some(Serialize(rs))) == rs
    ensures FullyLoadable(Some(Serialize(rs)))
    ensures EndsLine(Serialize(rs))
  {
    KindsOfLines(rs);
    LinesTerminated(LinesOf(rs));
    ScanAllHeld(rs);
    TerminatedEndsLine(LinesOf(rs));
  }

  lemma {:induction false} TerminatedEndsLine(ls: seq<string>)
    ensures EndsLine(Terminated(ls))
    decreases |ls|
  {
    if |ls| > 0 {
      TerminatedEndsLine(ls[1..]);
      var s := Terminated(ls);
      var t := Terminated(ls[1..]);
      assert s == ls[0] + "\n" + t;
      assert |t| == 0 ==> s[|s| - 1] == '\n';
      assert |t| > 0 ==> s[|s| - 1] == t[|t| - 1];
    }
  }

  // ---------------------------------------------------------------------------
  // The loader, line by line

  /** Blank and malformed lines contribute nothing and do not stop loading. */
  lemma ScanSkips(ks: seq<LineKind>)
    requires |ks| > 0 && (ks[0].Blank? || ks[0].Malformed?)
    ensures ScanKinds(ks) == ScanKinds(ks[1..])
  {
  }

  /** A line of whitespace, or one that does not split into three fields,
      changes nothing about what the rest of the file loads as. */
  lemma LoadSkipsLine(line: string, rest: string)
    requires NoBreaks(line)
    requires Classify(line).Blank? || Classify(line).Malformed?
    ensures Load(Some(line + "\n" + rest)) == Load(Some(rest))
    ensures FullyLoadable(Some(line + "\n" + rest)) == FullyLoadable(Some(rest))
  {
    var s := line + "\n" + rest;
    LinesCons(line, rest);
    var ls := Lines(s);
    assert ls == [line] + Lines(rest);
    var ks := Kinds(ls);
    assert ks[0] == Classify(line);
    assert ks[1..] == Kinds(Lines(rest));
    ScanSkips(ks);
    assert ScanText(s) == ScanText(rest);
  }

  /** Reading two runs of lines one after the other: a complete first run
      contributes its records and hands over to the second; an incomplete
      one ends the load. */
  lemma {:induction false} ScanAppend(a: seq<LineKind>, b: seq<LineKind>)
    ensures ScanKinds(a).complete ==>
      ScanKinds(a + b) == Scan(ScanKinds(a).records + ScanKinds(b).records, ScanKinds(b).complete)
    ensures !ScanKinds(a).complete ==> ScanKinds(a + b) == ScanKinds(a)
    decreases |a|
  {
    if |a| == 0 {
      assert a + b == b;
    } else {
      assert (a + b)[0] == a[0];
      assert (a + b)[1..] == a[1..] + b;
      ScanAppend(a[1..], b);
      if a[0].Holds? {
        var s1 := ScanKinds(a[1..]).records;
        var s2 := ScanKinds(b).records;
        assert [a[0].record] + (s1 + s2) == ([a[0].record] + s1) + s2;
      }
    }
  }

  lemma KindsAppend(a: seq<string>, b: seq<string>)
    ensures Kinds(a + b) == Kinds(a) + Kinds(b)
  {
  }

  /** Index of the first line whose date-time does not parse, or `|ks|`. */
  function StopIndex(ks: seq<LineKind>): (n: nat)
    ensures n <= |ks|
    ensures n < |ks| ==> ks[n].BadTimestamp?
    ensures forall k :: 0 <= k < n ==> !ks[k].BadTimestamp?
    decreases |ks|
  {
    if |ks| == 0 then 0
    else if ks[0].BadTimestamp? then 0
    else 1 + StopIndex(ks[1..])
  }

  /** The records of the lines that hold one, in order, ignoring everything
      else (a reference definition independent of where loading stops). */
  function Held(ks: seq<LineKind>): seq<Record>
    decreases |ks|
  {
    if |ks| == 0 then []
    else if ks[0].Holds? then [ks[0].record] + Held(ks[1..])
    else Held(ks[1..])
  }

  /** Loading stops at the first unparsable date-time: the records loaded are
      exactly those held by the lines before it, and loading was complete
      exactly when there is no such line. */
  lemma {:induction false} ScanIsPrefix(ks: seq<LineKind>)
    ensures ScanKinds(ks).records == Held(ks[..StopIndex(ks)])
    ensures ScanKinds(ks).complete <==> StopIndex(ks) == |ks|
    decreases |ks|
  {
    if |ks| > 0 {
      ScanIsPrefix(ks[1..]);
      if !ks[0].BadTimestamp? {
        var n := StopIndex(ks);
        assert ks[..n][1..] == ks[1..][..n - 1];
        assert ks[..n][0] == ks[0];
      }
    }
  }

  /** `Load` in these terms: the records held by the lines before the first
      line with an unparsable date-time. */
  lemma LoadIsPrefix(c: string)
    ensures Load(Some(c)) == Held(Kinds(Lines(c))[..StopIndex(Kinds(Lines(c)))])
    ensures FullyLoadable(Some(c)) <==> StopIndex(Kinds(Lines(c))) == |Lines(c)|
  {
    ScanIsPrefix(Kinds(Lines(c)));
  }

  // ---------------------------------------------------------------------------
  // Appending and clearing

  lemma SerializeOne(r: Record)
    ensures Serialize([r]) == LineOf(r) + "\n"
  {
    var ls := LinesOf([r]);
    assert ls == [LineOf(r)];
    assert ls[1..] == [];
    assert Terminated(ls) == ls[0] + "\n" + Terminated([]);
  }

  /** Appending a storable record to a file whose content ends with a line
      terminator and reads completely: loading gives the old records followed
      by the new one, and the file still ends a line and reads completely. */
  lemma LoadSave(f: File, r: Record)
    requires EndsLine(Content(f)) && FullyLoadable(f)
    requires Storable(r)
    ensures Load(Save(f, r)) == Load(f) + [r]
    ensures EndsLine(Content(Save(f, r))) && FullyLoadable(Save(f, r))
  {
    var c := Content(f);
    var x := Serialize([r]);
    LoadSerialize([r]);
    assert |x| > 0 && x[0] != '\n' by {
      SerializeOne(r);
      FormatPlain(r.when);
      assert x[0] == Format(r.when)[0];
    }
    LinesAppend(c, x);
    KindsAppend(Lines(c), Lines(x));
    ScanAppend(Kinds(Lines(c)), Kinds(Lines(x)));
    assert Load(f) == ScanText(c).records;
    assert Save(f, r) == Some(c + x);
    var y := c + x;
    assert y[|y| - 1] == x[|x| - 1];
  }

  /** `save_birthday` called once per record, in order: the records' lines
      are appended, and a file that did not exist is created only when there
      is at least one record. */
  function SaveAll(f: File, rs: seq<Record>): File
    decreases |rs|
  {
    if |rs| == 0 then f else SaveAll(Save(f, rs[0]), rs[1..])
  }

  /** Saving records one by one writes exactly their serialisation after the
      old content; saving none leaves the file as it was (not even created). */
  lemma {:induction false} SaveAllContent(f: File, rs: seq<Record>)
    ensures |rs| == 0 ==> SaveAll(f, rs) == f
    ensures |rs| > 0 ==> SaveAll(f, rs) == Some(Content(f) + Serialize(rs))
    decreases |rs|
  {
    if |rs| > 0 {
      var c := Content(f);
      var a, b := Serialize([rs[0]]), Serialize(rs[1..]);
      var g := Save(f, rs[0]);
      assert SaveAll(f, rs) == SaveAll(g, rs[1..]);
      assert Content(g) == c + a;
      SerializeCons(rs);
      SaveAllContent(g, rs[1..]);
      if |rs| == 1 {
        assert LinesOf(rs[1..]) == [];
        assert b == [];
        assert c + a + b == c + a;
        assert SaveAll(f, rs) == Some(c + a + b);
      } else {
        assert SaveAll(f, rs) == Some((c + a) + b);
      }
      SeqAssoc(c, a, b);
    }
  }

  lemma SerializeCons(rs: seq<Record>)
    requires |rs| > 0
    ensures Serialize(rs) == Serialize([rs[0]]) + Serialize(rs[1..])
  {
    assert LinesOf(rs)[1..] == LinesOf(rs[1..]);
    SerializeOne(rs[0]);
  }

  /** Appending N storable records one by one, then loading, yields the old
      records followed by those N in the order they were appended. */
  lemma {:induction false} LoadSaveAll(f: File, rs: seq<Record>)
    requires EndsLine(Content(f)) && FullyLoadable(f)
    requires AllStorable(rs)
    ensures Load(SaveAll(f, rs)) == Load(f) + rs
    decreases |rs|
  {
    if |rs| == 0 {
      assert Load(f) + rs == Load(f);
    } else {
      var f' := Save(f, rs[0]);
      var l0 := Load(f);
      LoadSave(f, rs[0]);
      assert AllStorable(rs[1..]) by {
        forall i | 0 <= i < |rs[1..]| ensures Storable(rs[1..][i]) {
          assert rs[1..][i] == rs[i + 1];
        }
      }
      LoadSaveAll(f', rs[1..]);
      assert SaveAll(f, rs) == SaveAll(f', rs[1..]);
      SeqAssoc(l0, [rs[0]], rs[1..]);
      assert [rs[0]] + rs[1..] == rs;
    }
  }

  /** Rewriting what was loaded reproduces the loaded list: the rewrite keeps
      every record `load` returned, and only those. */
  lemma LoadOverwriteLoad(f: File)
    ensures Load(Overwrite(f, Load(f))) == Load(f)
  {
  }
}
