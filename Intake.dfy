/**
 * The per-line logic of Zoo.readAnimalsFromFile and Zoo.readNamesFromFile. One intake line becomes
 * the fields of a new Animal or the unchecked exception the source would throw on it; one name line
 * becomes a species-to-prefix entry. The reading loops themselves are methods of the Zoo class.
 */
module Intake {
  import opened Wrappers
  import opened JavaLang
  import opened Animals

  // ---------------------------------------------------------------------------------------------
  // Intake lines: "<age> ..., <sex>, <species>, <color>, <weight> <unit>, <origin>, <unused>, <season>"

  /** The unchecked exceptions the per-line code can throw; none of them is caught in the source. */
  datatype LineError =
    | MissingField(index: nat)     // ArrayIndexOutOfBoundsException on the ", "-separated fields
    | MissingToken(field: nat)     // ArrayIndexOutOfBoundsException on the " "-separated tokens of a field
    | BadNumber(token: string)     // NumberFormatException from Integer.parseInt
    | YearOutOfRange(year: int)    // DateTimeException from LocalDate.of in genBirthDay

  /** A bad line and the exception it raises. */
  datatype LineFailure = LineFailure(line: nat, error: LineError)

  /** The arguments the loop body passes to the Animal constructor. */
  datatype Fields = Fields(
    age: int,
    sex: string,
    species: string,
    color: string,
    weight: int,
    origin: string,
    birthSeason: string)

  /**
   * The split-and-parse part of the loop body, in the order the source touches the pieces: field 0's
   * first token is the age, fields 1 to 3 are sex, species and color, field 4's first token is the
   * weight, field 5 is the origin and field 7 the birth season; field 6 is never read.
   */
  function ParseFields(line: string): (r: Result<Fields, LineError>)
    ensures r.Success? ==> IsInt32(r.value.age) && IsInt32(r.value.weight)
  {
    var parts := Split(line, ", ");
    if |parts| == 0 then Failure(MissingField(0))
    else
      var ageSex := Split(parts[0], " ");
      if |ageSex| == 0 then Failure(MissingToken(0))
      else
        match ParseInt(ageSex[0])
        case None => Failure(BadNumber(ageSex[0]))
        case Some(age) =>
          if |parts| < 5 then Failure(MissingField(|parts|))
          else
            var weightUnit := Split(parts[4], " ");
            if |weightUnit| == 0 then Failure(MissingToken(4))
            else
              match ParseInt(weightUnit[0])
              case None => Failure(BadNumber(weightUnit[0]))
              case Some(weight) =>
                if |parts| < 6 then Failure(MissingField(5))
                else if |parts| < 8 then Failure(MissingField(7))
                else Success(Fields(age, parts[1], parts[2], parts[3], weight, parts[5], parts[7]))
  }

  /** One iteration of readAnimalsFromFile's loop: the new Animal's fields, or the exception. */
  function ParseLine(line: string, currentYear: int): (r: Result<AnimalRecord, LineError>)
    requires IsYear(currentYear)
    ensures r.Success? ==> r.value.uniqueID.None? && r.value.name.None?
    ensures r.Success? ==> r.value.birthday.day == 1 && 1 <= r.value.birthday.month <= 12
    ensures r.Success? ==> IsInt32(r.value.weight)
  {
    match ParseFields(line)
    case Failure(e) => Failure(e)
    case Success(f) =>
      match GenBirthDay(f.birthSeason, f.age, currentYear)
      case Failure(year) => Failure(YearOutOfRange(year))
      case Success(birthday) =>
        Success(AnimalRecord(f.species, f.sex, f.color, f.weight, f.origin, birthday, None, None))
  }

  /**
   * A line with fewer than eight ", "-separated fields throws; otherwise the text fields are the
   * pieces at their positions, and the age and the weight are what parseInt reads from the first
   * blank-separated tokens of fields 0 and 4, so a token that is no int throws. FieldsOfPieces is
   * the converse.
   */
  lemma FieldsArePieces(line: string, currentYear: int)
    requires IsYear(currentYear)
    ensures |Split(line, ", ")| < 8 ==> ParseFields(line).Failure? && ParseLine(line, currentYear).Failure?
    ensures ParseFields(line).Success? ==> var f, parts := ParseFields(line).value, Split(line, ", ");
      && f.sex == parts[1] && f.species == parts[2] && f.color == parts[3]
      && f.origin == parts[5] && f.birthSeason == parts[7]
      && |Split(parts[0], " ")| >= 1 && ParseInt(Split(parts[0], " ")[0]) == Some(f.age)
      && |Split(parts[4], " ")| >= 1 && ParseInt(Split(parts[4], " ")[0]) == Some(f.weight)
  {
  }

  /** The line an intake record is written as. */
  function IntakeLine(age: int, ageNote: string, sex: string, species: string, color: string,
                      weight: int, unit: string, origin: string, note: string, season: string): string
  {
    Join([IntToString(age) + ageNote, sex, species, color, IntToString(weight) + unit, origin, note, season], ", ")
  }

  /**
   * A well-formed intake line parses to the record it describes: whatever follows the age and the
   * weight in their fields, and whatever stands in field 6, is ignored.
   */
  lemma {:induction false} ParseIntakeLine(age: int, ageNote: string, sex: string, species: string, color: string,
                                           weight: int, unit: string, origin: string, note: string, season: string,
                                           currentYear: int)
    requires IsInt32(age) && IsInt32(weight) && IsYear(currentYear) && IsYear(currentYear - age)
    requires ageNote == [] || ageNote[0] == ' '
    requires unit == [] || unit[0] == ' '
    requires ',' !in ageNote && ',' !in unit && ',' !in sex && ',' !in species && ',' !in color
    requires ',' !in origin && ',' !in note && ',' !in season
    requires season != []
    ensures ParseLine(IntakeLine(age, ageNote, sex, species, color, weight, unit, origin, note, season), currentYear)
         == Success(AnimalRecord(species, sex, color, weight, origin,
                                 Date(currentYear - age, SeasonMonth(season), 1), None, None))
  {
    var line := IntakeLine(age, ageNote, sex, species, color, weight, unit, origin, note, season);
    IntakeLineSplits(age, ageNote, sex, species, color, weight, unit, origin, note, season);
    LeadingNumber(age, ageNote);
    LeadingNumber(weight, unit);
    FieldsOfPieces(line, age, weight);
  }

  /**
   * An empty season followed by a further field is kept by split, so parts[7] is "" and the
   * birthday falls in January.
   */
  lemma {:induction false} EmptySeasonBeforeMoreFields(age: int, ageNote: string, sex: string, species: string,
                                                      color: string, weight: int, unit: string, origin: string,
                                                      note: string, extra: string, currentYear: int)
    requires IsInt32(age) && IsInt32(weight) && IsYear(currentYear) && IsYear(currentYear - age)
    requires ageNote == [] || ageNote[0] == ' '
    requires unit == [] || unit[0] == ' '
    requires ',' !in ageNote && ',' !in unit && ',' !in sex && ',' !in species && ',' !in color
    requires ',' !in origin && ',' !in note && ',' !in extra
    requires extra != []
    ensures ParseLine(Join([IntToString(age) + ageNote, sex, species, color, IntToString(weight) + unit,
                            origin, note, "", extra], ", "), currentYear)
         == Success(AnimalRecord(species, sex, color, weight, origin, Date(currentYear - age, 1, 1), None, None))
  {
    var parts := [IntToString(age) + ageNote, sex, species, color, IntToString(weight) + unit, origin, note, "", extra];
    var line := Join(parts, ", ");
    IntToStringSpec(age);
    IntToStringSpec(weight);
    CommaFree(IntToString(age), ageNote);
    CommaFree(IntToString(weight), unit);
    assert forall k :: 0 <= k < |parts| ==> ", "[0] !in parts[k];
    SplitJoin(parts, ", ");
    LeadingNumber(age, ageNote);
    LeadingNumber(weight, unit);
    FieldsOfPieces(line, age, weight);
    assert Lower("") == "";
  }

  /** A line of at least eight fields whose fields 0 and 4 start with numbers parses to its fields. */
  lemma FieldsOfPieces(line: string, age: int, weight: int)
    requires |Split(line, ", ")| >= 8
    requires var parts := Split(line, ", ");
      && |Split(parts[0], " ")| >= 1 && ParseInt(Split(parts[0], " ")[0]) == Some(age)
      && |Split(parts[4], " ")| >= 1 && ParseInt(Split(parts[4], " ")[0]) == Some(weight)
    ensures var parts := Split(line, ", ");
      ParseFields(line) == Success(Fields(age, parts[1], parts[2], parts[3], weight, parts[5], parts[7]))
  {
  }

  /** The fields of a line whose fields hold no ',' are what split on ", " gives back. */
  lemma IntakeLineSplits(age: int, ageNote: string, sex: string, species: string, color: string,
                         weight: int, unit: string, origin: string, note: string, season: string)
    requires ',' !in ageNote && ',' !in unit && ',' !in sex && ',' !in species && ',' !in color
    requires ',' !in origin && ',' !in note && ',' !in season
    requires season != []
    ensures Split(IntakeLine(age, ageNote, sex, species, color, weight, unit, origin, note, season), ", ")
         == [IntToString(age) + ageNote, sex, species, color, IntToString(weight) + unit, origin, note, season]
  {
    var parts := [IntToString(age) + ageNote, sex, species, color, IntToString(weight) + unit, origin, note, season];
    IntToStringSpec(age);
    IntToStringSpec(weight);
    CommaFree(IntToString(age), ageNote);
    CommaFree(IntToString(weight), unit);
    assert forall k :: 0 <= k < |parts| ==> ", "[0] !in parts[k];
    SplitJoin(parts, ", ");
  }

  /** A number followed by nothing or by a blank is the first blank-separated token, and parses back. */
  lemma LeadingNumber(n: int, rest: string)
    requires IsInt32(n)
    requires rest == [] || rest[0] == ' '
    ensures |Split(IntToString(n) + rest, " ")| >= 1
    ensures ParseInt(Split(IntToString(n) + rest, " ")[0]) == Some(n)
  {
    var t := IntToString(n);
    IntToStringSpec(n);
    assert forall i :: 1 <= i < |t| ==> t[i] == t[1..][i - 1];
    SplitHead(t, rest, " ");
    ParseIntToString(n);
  }

  /** A number followed by text without a ',' holds no ','. */
  lemma CommaFree(digits: string, rest: string)
    requires digits != [] && (IsDigit(digits[0]) || digits[0] == '-') && AllDigits(digits[1..])
    requires ',' !in rest
    ensures ',' !in digits + rest
  {
    assert forall i :: 1 <= i < |digits| ==> digits[i] == digits[1..][i - 1];
  }

  /** The records of all lines, or the first bad line: reading stops at the first exception. */
  function ParseAll(lines: seq<string>, currentYear: int): (r: Result<seq<AnimalRecord>, LineFailure>)
    requires IsYear(currentYear)
    decreases |lines|
  {
    if lines == [] then Success([])
    else
      var last := |lines| - 1;
      match ParseAll(lines[..last], currentYear)
      case Failure(f) => Failure(f)
      case Success(records) =>
        match ParseLine(lines[last], currentYear)
        case Failure(e) => Failure(LineFailure(last, e))
        case Success(a) => Success(records + [a])
  }

  /** ParseAll gives a record for each line. */
  lemma {:induction false} ParseAllLength(lines: seq<string>, currentYear: int)
    requires IsYear(currentYear) && ParseAll(lines, currentYear).Success?
    ensures |ParseAll(lines, currentYear).value| == |lines|
    decreases |lines|
  {
    if lines != [] {
      ParseAllLength(lines[..|lines| - 1], currentYear);
    }
  }

  /** The record ParseAll gives for a line is the one that line parses to. */
  lemma {:induction false} ParseAllAt(lines: seq<string>, currentYear: int, i: nat)
    requires IsYear(currentYear) && ParseAll(lines, currentYear).Success? && i < |lines|
    ensures |ParseAll(lines, currentYear).value| == |lines|
    ensures ParseLine(lines[i], currentYear) == Success(ParseAll(lines, currentYear).value[i])
    decreases |lines|
  {
    var last := |lines| - 1;
    var init := lines[..last];
    assert ParseAll(init, currentYear).Success? && ParseLine(lines[last], currentYear).Success?;
    var records, a := ParseAll(init, currentYear).value, ParseLine(lines[last], currentYear).value;
    assert ParseAll(lines, currentYear).value == records + [a];
    ParseAllLength(init, currentYear);
    if i < last {
      ParseAllAt(init, currentYear, i);
      assert init[i] == lines[i];
      assert (records + [a])[i] == records[i];
    } else {
      assert i == last;
      assert (records + [a])[i] == a;
    }
  }

  /**
   * When ParseAll fails, it names a line that fails with that line's failure, and the lines before
   * it parse.
   */
  lemma {:induction false} ParseAllFailure(lines: seq<string>, currentYear: int)
    requires IsYear(currentYear) && ParseAll(lines, currentYear).Failure?
    ensures var f := ParseAll(lines, currentYear).error;
      && f.line < |lines|
      && ParseLine(lines[f.line], currentYear) == Failure(f.error)
      && ParseAll(lines[..f.line], currentYear).Success?
    decreases |lines|
  {
    var last := |lines| - 1;
    var init := lines[..last];
    if ParseAll(init, currentYear).Failure? {
      ParseAllFailure(init, currentYear);
      var k := ParseAll(init, currentYear).error.line;
      assert init[..k] == lines[..k];
      assert init[k] == lines[k];
    }
  }

  /** Reading one more line: the records so far and the new line's record, or the first failure. */
  lemma ParseAllStep(lines: seq<string>, currentYear: int, i: nat)
    requires IsYear(currentYear) && i < |lines|
    ensures ParseAll(lines[..i + 1], currentYear)
         == match ParseAll(lines[..i], currentYear)
            case Failure(f) => Failure(f)
            case Success(records) =>
              match ParseLine(lines[i], currentYear)
              case Failure(e) => Failure(LineFailure(i, e))
              case Success(a) => Success(records + [a])
  {
    assert lines[..i + 1][..i] == lines[..i];
  }

  /** Once a prefix fails, the lines after it are not read. */
  lemma {:induction false} ParseAllStops(lines: seq<string>, currentYear: int, i: nat)
    requires IsYear(currentYear) && i <= |lines|
    requires ParseAll(lines[..i], currentYear).Failure?
    ensures ParseAll(lines, currentYear) == ParseAll(lines[..i], currentYear)
    decreases |lines| - i
  {
    if i == |lines| {
      assert lines[..i] == lines;
    } else {
      ParseAllStep(lines, currentYear, i);
      ParseAllStops(lines, currentYear, i + 1);
    }
  }

  /** Where the reading loop of readAnimalsFromFile ends: how (Pass, or the line that threw) and the records read. */
  datatype Reading = Reading(outcome: Outcome<LineFailure>, records: seq<AnimalRecord>)

  /** The reading loop from line i on, the records of the lines before i read. */
  function ReadFrom(lines: seq<string>, currentYear: int, i: nat, records: seq<AnimalRecord>): Reading
    requires IsYear(currentYear) && i <= |lines|
    decreases |lines| - i
  {
    if i == |lines| then Reading(Pass, records)
    else
      match ParseLine(lines[i], currentYear)
      case Failure(e) => Reading(Fail(LineFailure(i, e)), records)
      case Success(a) => ReadFrom(lines, currentYear, i + 1, records + [a])
  }

  /** The whole reading loop. */
  function ReadAll(lines: seq<string>, currentYear: int): Reading
    requires IsYear(currentYear)
  {
    ReadFrom(lines, currentYear, 0, [])
  }

  /**
   * The records already read before the loop starts stay in front: reading onto a list holding pre
   * ends the same way and appends the same records as reading onto an empty one.
   */
  lemma {:induction false} ReadFromAppends(lines: seq<string>, currentYear: int, i: nat, pre: seq<AnimalRecord>, records: seq<AnimalRecord>)
    requires IsYear(currentYear) && i <= |lines|
    ensures var r := ReadFrom(lines, currentYear, i, records);
      ReadFrom(lines, currentYear, i, pre + records) == Reading(r.outcome, pre + r.records)
    decreases |lines| - i
  {
    if i < |lines| && ParseLine(lines[i], currentYear).Success? {
      var a := ParseLine(lines[i], currentYear).value;
      ReadFromAppends(lines, currentYear, i + 1, pre, records + [a]);
      assert pre + records + [a] == pre + (records + [a]);
    }
  }

  /** From a line i before which every line parses, the loop reads what ParseAll gives. */
  lemma {:induction false} ReadFromSpec(lines: seq<string>, currentYear: int, i: nat)
    requires IsYear(currentYear) && i <= |lines| && ParseAll(lines[..i], currentYear).Success?
    ensures var r, p := ReadFrom(lines, currentYear, i, ParseAll(lines[..i], currentYear).value), ParseAll(lines, currentYear);
      && (p.Success? ==> r == Reading(Pass, p.value))
      && (p.Failure? ==> r.outcome == Fail(p.error) && p.error.line < |lines|)
      && (p.Failure? ==> ParseAll(lines[..p.error.line], currentYear).Success?)
      && (p.Failure? ==> r.records == ParseAll(lines[..p.error.line], currentYear).value)
    decreases |lines| - i
  {
    if ParseAll(lines, currentYear).Failure? {
      ParseAllFailure(lines, currentYear);
    }
    if i == |lines| {
      assert lines[..i] == lines;
    } else {
      ParseAllStep(lines, currentYear, i);
      if ParseLine(lines[i], currentYear).Failure? {
        ParseAllStops(lines, currentYear, i + 1);
      } else {
        ReadFromSpec(lines, currentYear, i + 1);
      }
    }
  }

  /**
   * The reading loop succeeds exactly when ParseAll does, with its records; when a line throws, it
   * stops there with ParseAll's failure and the records of the lines before it.
   */
  lemma ReadAllSpec(lines: seq<string>, currentYear: int)
    requires IsYear(currentYear)
    ensures var r, p := ReadAll(lines, currentYear), ParseAll(lines, currentYear);
      && (p.Success? ==> r == Reading(Pass, p.value))
      && (p.Failure? ==> r.outcome == Fail(p.error) && p.error.line < |lines|)
      && (p.Failure? ==> ParseAll(lines[..p.error.line], currentYear).Success?)
      && (p.Failure? ==> r.records == ParseAll(lines[..p.error.line], currentYear).value)
  {
    assert lines[..0] == [];
    ReadFromSpec(lines, currentYear, 0);
  }

  // ---------------------------------------------------------------------------------------------
  // Name lines: "<species>:<prefix>"

  /**
   * One iteration of readNamesFromFile's loop: split on ':' and trim the first two parts; a line
   * with fewer than two parts makes parts[1] (or parts[0]) throw.
   */
  function NameEntry(line: string): (r: Option<(string, string)>)
    ensures r.Some? <==> |Split(line, ":")| >= 2
  {
    var parts := Split(line, ":");
    if |parts| < 2 then None else Some((Trim(parts[0]), Trim(parts[1])))
  }

  /** A line without a ':' is a failure. */
  lemma NameLineWithoutColon(line: string)
    requires ':' !in line
    ensures NameEntry(line) == None
  {
    SplitNoSeparator(line, ":");
  }

  /**
   * "k:v" gives the trimmed pair; with nothing after the ':' split drops the empty trailing part and
   * the line fails, while blanks after the ':' give the empty prefix.
   */
  lemma NameLine(key: string, prefix: string)
    requires ':' !in key && ':' !in prefix
    ensures NameEntry(key + ":" + prefix) == if prefix == [] then None else Some((Trim(key), Trim(prefix)))
  {
    var line := key + ":" + prefix;
    if prefix == [] {
      FindAfter(key, ":", ":");
      assert line == key + ":";
      var ps := Pieces(line, ":");
      assert (key + ":")[|key| + 1..] == [];
      assert ps == [key] + Pieces([], ":");
      assert Pieces([], ":") == [[]];
      if key == [] {
        assert Split(line, ":") == [];
      } else {
        assert Split(line, ":") == [key];
      }
    } else {
      assert Join([key, prefix], ":") == line;
      SplitJoin([key, prefix], ":");
    }
  }

  /** "k:v:rest" gives the trimmed k and v: parts[1] ends at the second ':', and the rest is dropped. */
  lemma NameEntryTwoColons(key: string, prefix: string, rest: string)
    requires ':' !in key && ':' !in prefix && ':' !in rest && rest != []
    ensures NameEntry(key + ":" + prefix + ":" + rest) == Some((Trim(key), Trim(prefix)))
  {
    var xs := [key, prefix, rest];
    assert xs[1..][1..] == [rest];
    assert Join(xs[1..], ":") == prefix + ":" + rest;
    assert Join(xs, ":") == key + ":" + prefix + ":" + rest;
    SplitJoin([key, prefix, rest], ":");
  }

  /** The first line readNamesFromFile fails on, if any. */
  function FirstBadNameLine(lines: seq<string>): (r: Option<nat>)
    ensures r.Some? ==> r.value < |lines| && NameEntry(lines[r.value]).None?
    ensures r.Some? ==> forall j :: 0 <= j < r.value ==> NameEntry(lines[j]).Some?
    ensures r.None? ==> forall j :: 0 <= j < |lines| ==> NameEntry(lines[j]).Some?
  {
    var entries := seq(|lines|, j requires 0 <= j < |lines| => NameEntry(lines[j]));
    assert forall j :: 0 <= j < |lines| ==> entries[j] == NameEntry(lines[j]);
    FirstNone(entries)
  }

  /** The entries of name lines that all parse. */
  function Entries(lines: seq<string>): (es: seq<(string, string)>)
    requires forall j :: 0 <= j < |lines| ==> NameEntry(lines[j]).Some?
    ensures |es| == |lines|
  {
    seq(|lines|, j requires 0 <= j < |lines| => NameEntry(lines[j]).value)
  }

  /** The name map after putting each entry in turn: Map.put overwrites an existing key. */
  function Directory(base: map<string, string>, entries: seq<(string, string)>): (m: map<string, string>)
    ensures m.Keys == base.Keys + set e | e in entries :: e.0
    decreases |entries|
  {
    if entries == [] then base
    else
      var init := entries[..|entries| - 1];
      var e := entries[|entries| - 1];
      assert entries == init + [e];
      Directory(base, init)[e.0 := e.1]
  }

  /** Last write wins: a key maps to the prefix of the last entry that has it. */
  lemma {:induction false} LastWriteWins(base: map<string, string>, entries: seq<(string, string)>, j: nat)
    requires j < |entries|
    requires forall k :: j < k < |entries| ==> entries[k].0 != entries[j].0
    ensures entries[j].0 in Directory(base, entries)
    ensures Directory(base, entries)[entries[j].0] == entries[j].1
    decreases |entries|
  {
    var last := |entries| - 1;
    if j < last {
      var init := entries[..last];
      LastWriteWins(base, init, j);
    }
  }

  /** A key no entry mentions keeps the value it had before, or stays absent. */
  lemma {:induction false} UntouchedKey(base: map<string, string>, entries: seq<(string, string)>, key: string)
    requires forall k :: 0 <= k < |entries| ==> entries[k].0 != key
    ensures key in Directory(base, entries) <==> key in base
    ensures key in base ==> Directory(base, entries)[key] == base[key]
    decreases |entries|
  {
    if entries != [] {
      UntouchedKey(base, entries[..|entries| - 1], key);
    }
  }

  /** Putting one more entry. */
  lemma DirectoryStep(base: map<string, string>, lines: seq<string>, i: nat)
    requires i < |lines|
    requires forall j :: 0 <= j <= i ==> NameEntry(lines[j]).Some?
    ensures Directory(base, Entries(lines[..i + 1]))
         == Directory(base, Entries(lines[..i]))[NameEntry(lines[i]).value.0 := NameEntry(lines[i]).value.1]
  {
    assert Entries(lines[..i + 1])[..i] == Entries(lines[..i]);
  }

  /** What readNamesFromFile yields on its own: the directory, or the index of the first bad line. */
  function LoadNames(base: map<string, string>, lines: seq<string>): (r: Result<map<string, string>, nat>)
    ensures r.Failure? <==> exists j :: 0 <= j < |lines| && NameEntry(lines[j]).None?
  {
    match FirstBadNameLine(lines)
    case Some(i) => Failure(i)
    case None => Success(Directory(base, Entries(lines)))
  }
}
