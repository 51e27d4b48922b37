/**
 * The Zoo class of MyProg.java and its main: the animals read from the intake lines, the name
 * prefixes read from the name lines, the per-species counter, and the report of the habitats.
 * Files are modelled by their lines (what readLine returns, in order) and the written file by the
 * lines println writes; the clock is the current year and the date of the report.
 */
module ZooProgram {
  import opened Wrappers
  import opened JavaLang
  import opened Animals
  import opened Intake
  import opened Registry
  import opened Habitats

  /** The fields of each animal, in list order. */
  function Values(s: seq<Animal>): (r: seq<AnimalRecord>)
    reads s
    ensures |r| == |s|
    ensures forall i :: 0 <= i < |s| ==> r[i] == s[i].Value()
    decreases |s|
  {
    if s == [] then [] else Values(s[..|s| - 1]) + [s[|s| - 1].Value()]
  }

  /** Why a run stops early: the exception that escapes main. */
  datatype RunError =
    | AnimalLineError(failure: LineFailure)   // from readAnimalsFromFile
    | NameLineError(line: nat)                // from readNamesFromFile: a line without a second ':'-field
    | ShortSpecies(animal: nat)               // from assignNamesAndIDs: genUniqueID on a species under two characters

  class Zoo {
    var animals: seq<Animal>
    var speciesCount: map<string, int>
    var animalNames: map<string, string>
    /** The animals' fields, in list order. */
    ghost var model: seq<AnimalRecord>

    /**
     * The list holds each Animal object once, so setting one animal's fields leaves the others
     * alone, and model holds the fields of each.
     */
    ghost predicate Valid()
      reads this`animals, this`model, animals`uniqueID, animals`name
    {
      && (forall i, j :: 0 <= i < j < |animals| ==> animals[i] != animals[j])
      && |model| == |animals|
      && (forall k :: 0 <= k < |animals| ==> animals[k].Value() == model[k])
    }

    /** new Zoo(): no animals, an empty counter and no names. */
    constructor ()
      ensures Valid()
      ensures animals == [] && model == [] && speciesCount == map[] && animalNames == map[]
    {
      animals := [];
      model := [];
      speciesCount := map[];
      animalNames := map[];
    }

    /**
     * readAnimalsFromFile: an Animal for each line, appended in order. The first line that throws
     * ends the reading; the animals of the lines before it stay in the list.
     */
    method ReadAnimalsFromFile(lines: seq<string>, currentYear: int) returns (r: Outcome<LineFailure>)
      requires Valid() && IsYear(currentYear)
      modifies this`animals, this`model
      ensures Valid()
      ensures Reading(r, model) == ReadFrom(lines, currentYear, 0, old(model))
      ensures forall a :: a in animals ==> a in old(animals) || fresh(a)
    {
      var i := 0;
      while i < |lines|
        invariant i <= |lines| && Valid()
        invariant ReadFrom(lines, currentYear, i, model) == ReadFrom(lines, currentYear, 0, old(model))
        invariant forall a :: a in animals ==> a in old(animals) || fresh(a)
      {
        var failure := ReadNext(lines[i], currentYear);
        if failure.Some? {
          return Fail(LineFailure(i, failure.value));
        }
        i := i + 1;
      }
      r := Pass;
    }

    /** One pass of the loop of readAnimalsFromFile: the animal of one line joins the list, or the line throws. */
    method ReadNext(line: string, currentYear: int) returns (failure: Option<LineError>)
      requires Valid() && IsYear(currentYear)
      modifies this`animals, this`model
      ensures Valid()
      ensures failure.None? <==> ParseLine(line, currentYear).Success?
      ensures failure.None? ==> model == old(model) + [ParseLine(line, currentYear).value]
      ensures failure.Some? ==> failure.value == ParseLine(line, currentYear).error && model == old(model)
      ensures forall a :: a in animals ==> a in old(animals) || fresh(a)
    {
      var next := NewAnimal(line, currentYear);
      if next.Failure? {
        return Some(next.error);
      }
      Admit(next.value);
      return None;
    }

    /** list.add on an Animal not yet in the list. */
    method Admit(animal: Animal)
      requires Valid() && animal !in animals
      modifies this`animals, this`model
      ensures Valid()
      ensures animals == old(animals) + [animal] && model == old(model) + [animal.Value()]
    {
      animals := animals + [animal];
      model := model + [animal.Value()];
      assert forall k :: 0 <= k < |animals| - 1 ==> animals[k] == old(animals)[k];
    }

    /**
     * readNamesFromFile: each line puts its trimmed key and prefix into the name map, a later line
     * overwriting an earlier one. A line without a second ':'-field throws and ends the reading; the
     * entries of the lines before it stay in the map.
     */
    method ReadNamesFromFile(lines: seq<string>) returns (r: Outcome<nat>)
      modifies this`animalNames
      ensures r.Pass? <==> LoadNames(old(animalNames), lines).Success?
      ensures r.Pass? ==> animalNames == LoadNames(old(animalNames), lines).value
      ensures r.Fail? ==> r.error == LoadNames(old(animalNames), lines).error
      ensures r.Fail? ==>
        && r.error < |lines|
        && (forall j :: 0 <= j < r.error ==> NameEntry(lines[j]).Some?)
        && animalNames == Directory(old(animalNames), Entries(lines[..r.error]))
    {
      var i := 0;
      while i < |lines|
        invariant 0 <= i <= |lines|
        invariant forall j :: 0 <= j < i ==> NameEntry(lines[j]).Some?
        invariant animalNames == Directory(old(animalNames), Entries(lines[..i]))
      {
        match NameEntry(lines[i])
        case None =>
          r := Fail(i);
          return;
        case Some(entry) =>
          DirectoryStep(old(animalNames), lines, i);
          animalNames := animalNames[entry.0 := entry.1];
          i := i + 1;
      }
      assert lines[..i] == lines;
      r := Pass;
    }

    /**
     * assignNamesAndIDs: for each animal in list order, the counter of its species goes up by one and
     * the new count gives the animal its identifier and its name. genUniqueID throwing on a short
     * species ends the loop after that species' count has gone up, the animal itself unchanged.
     * AssignAllSpec says what this comes to.
     */
    method AssignNamesAndIDs() returns (r: Outcome<nat>)
      requires Valid()
      modifies this`speciesCount, this`model, animals
      ensures Valid()
      ensures animals == old(animals) && animalNames == old(animalNames)
      ensures Stamping(r, model, speciesCount) == AssignAll(old(model), old(speciesCount), animalNames)
    {
      var i := 0;
      while i < |animals|
        invariant 0 <= i <= |animals|
        invariant animals == old(animals) && animalNames == old(animalNames)
        invariant Valid()
        invariant AssignFrom(model, speciesCount, animalNames, i) == AssignAll(old(model), old(speciesCount), animalNames)
      {
        var ok := AssignNext(i);
        if !ok {
          r := Fail(i);
          return;
        }
        i := i + 1;
      }
      r := Pass;
    }

    /** One pass of the loop of assignNamesAndIDs, on the animal at i. */
    method AssignNext(i: nat) returns (ok: bool)
      requires Valid() && i < |animals|
      modifies this`speciesCount, this`model, animals[i]
      ensures Valid()
      ensures animals == old(animals) && animalNames == old(animalNames)
      ensures Stamping(if ok then Pass else Fail(i), model, speciesCount)
           == AssignOne(old(model), old(speciesCount), animalNames, i)
    {
      var animal := animals[i];
      speciesCount := speciesCount[animal.species := CountOf(speciesCount, animal.species) + 1];
      var count := speciesCount[animal.species];
      var uniqueID := GenUniqueID(animal.species, count);
      if uniqueID.None? {
        return false;
      }
      Label(i, uniqueID.value, DisplayName(animalNames, animal.species, count));
      return true;
    }

    /** The rest of main once the animals are read: read the names, number and name the animals, write the report. */
    method Finish(nameLines: seq<string>, today: Date) returns (r: Result<seq<string>, RunError>)
      requires Valid() && speciesCount == map[] && animalNames == map[]
      modifies this`animalNames, this`speciesCount, this`model, animals
      ensures r == StepsAfterReading(old(model), nameLines, today)
    {
      var named := ReadNamesFromFile(nameLines);
      if named.Fail? {
        return Failure(NameLineError(named.error));
      }
      r := NumberAndWrite(today);
    }

    /** The rest of main once the names are read: number and name the animals, write the report. */
    method NumberAndWrite(today: Date) returns (r: Result<seq<string>, RunError>)
      requires Valid() && speciesCount == map[]
      modifies this`speciesCount, this`model, animals
      ensures r == StepsAfterNames(old(model), animalNames, today)
    {
      var numbered := AssignNamesAndIDs();
      if numbered.Fail? {
        return Failure(ShortSpecies(numbered.error));
      }
      var lines := OrganizeAndWriteToFile(today);
      return Success(lines);
    }

    /** setUniqueID and setName on the animal at i: only its record changes. */
    method Label(i: nat, uniqueID: string, name: string)
      requires Valid() && i < |animals|
      modifies this`model, animals[i]
      ensures Valid()
      ensures model == old(model)[i := Stamp(old(model)[i], Some(uniqueID), name)]
    {
      var animal := animals[i];
      animal.SetUniqueID(uniqueID);
      animal.SetName(name);
      model := model[i := Stamp(model[i], Some(uniqueID), name)];
      forall k | 0 <= k < |animals|
        ensures animals[k].Value() == model[k]
      {
        if k != i {
          assert animals[k] != animal;
        }
      }
    }

    /**
     * organizeAndWriteToFile: for each habitat, its label and a colon, a bullet line per animal of
     * the habitat and an empty line; today is the date the animals' lines give as their arrival.
     */
    method OrganizeAndWriteToFile(today: Date) returns (lines: seq<string>)
      requires Valid()
      ensures lines == Report(model, today)
    {
      var records := Values(animals);
      assert records == model;
      var habitats := GroupByHabitat(records);
      lines := WriteGroups(habitats, BulletFor(today));
    }
  }

  /**
   * The body of the loop of readAnimalsFromFile: the new Animal of one intake line, or the exception
   * the line throws.
   */
  method NewAnimal(line: string, currentYear: int) returns (r: Result<Animal, LineError>)
    requires IsYear(currentYear)
    ensures r.Success? <==> ParseLine(line, currentYear).Success?
    ensures r.Success? ==> fresh(r.value) && r.value.Value() == ParseLine(line, currentYear).value
    ensures r.Failure? ==> r.error == ParseLine(line, currentYear).error
  {
    match ParseFields(line)
    case Failure(e) =>
      return Failure(e);
    case Success(f) =>
      var birthday := GenBirthDay(f.birthSeason, f.age, currentYear);
      if birthday.Failure? {
        return Failure(YearOutOfRange(birthday.error));
      }
      var animal := new Animal(f.species, f.sex, f.color, f.weight, f.origin, f.age, f.birthSeason, currentYear);
      return Success(animal);
  }

  /**
   * What main produces from the two input files: the lines of zooPopulation.txt, or the exception
   * that ends the run before anything is written.
   */
  function Pipeline(animalLines: seq<string>, nameLines: seq<string>, currentYear: int, today: Date)
    : (r: Result<seq<string>, RunError>)
    requires IsYear(currentYear)
  {
    match ParseAll(animalLines, currentYear)
    case Failure(f) => Failure(AnimalLineError(f))
    case Success(animals) =>
      match LoadNames(map[], nameLines)
      case Failure(j) => Failure(NameLineError(j))
      case Success(names) =>
        match FirstShortSpecies(animals)
        case Some(k) => Failure(ShortSpecies(k))
        case None => Success(Report(Assigned(animals, map[], names), today))
  }

  /** The steps of main one after the other, each the loop function of its method. */
  function RunSteps(animalLines: seq<string>, nameLines: seq<string>, currentYear: int, today: Date)
    : Result<seq<string>, RunError>
    requires IsYear(currentYear)
  {
    var read := ReadAll(animalLines, currentYear);
    match read.outcome
    case Fail(f) => Failure(AnimalLineError(f))
    case Pass => StepsAfterReading(read.records, nameLines, today)
  }

  /** The steps of main after readAnimalsFromFile, on the animals it read. */
  function StepsAfterReading(records: seq<AnimalRecord>, nameLines: seq<string>, today: Date)
    : Result<seq<string>, RunError>
  {
    match LoadNames(map[], nameLines)
    case Failure(j) => Failure(NameLineError(j))
    case Success(names) => StepsAfterNames(records, names, today)
  }

  /** The steps of main after readNamesFromFile, on the animals and the name map read. */
  function StepsAfterNames(records: seq<AnimalRecord>, names: map<string, string>, today: Date)
    : Result<seq<string>, RunError>
  {
    var stamped := AssignAll(records, map[], names);
    match stamped.outcome
    case Fail(k) => Failure(ShortSpecies(k))
    case Pass => Success(Report(stamped.animals, today))
  }

  /** Running the loops one after the other comes to Pipeline. */
  lemma RunStepsSpec(animalLines: seq<string>, nameLines: seq<string>, currentYear: int, today: Date)
    requires IsYear(currentYear)
    ensures RunSteps(animalLines, nameLines, currentYear, today) == Pipeline(animalLines, nameLines, currentYear, today)
  {
    ReadAllSpec(animalLines, currentYear);
    var parsed := ParseAll(animalLines, currentYear);
    var names := LoadNames(map[], nameLines);
    if parsed.Success? && names.Success? {
      AssignAllSpec(parsed.value, map[], names.value);
    }
  }

  /** main: a new Zoo reads the animals, reads the names, assigns the identifiers and names, writes the report. */
  method Run(animalLines: seq<string>, nameLines: seq<string>, currentYear: int, today: Date)
    returns (r: Result<seq<string>, RunError>)
    requires IsYear(currentYear)
    ensures r == RunSteps(animalLines, nameLines, currentYear, today)
  {
    var zoo := new Zoo();
    var read := zoo.ReadAnimalsFromFile(animalLines, currentYear);
    if read.Fail? {
      return Failure(AnimalLineError(read.error));
    }
    forall k | 0 <= k < |zoo.animals|
      ensures fresh(zoo.animals[k])
    {
      assert zoo.animals[k] in zoo.animals;
    }
    r := zoo.Finish(nameLines, today);
  }

  /** A run that completes read every intake line, read the names and found no short species. */
  lemma PipelineSucceeds(animalLines: seq<string>, nameLines: seq<string>, currentYear: int, today: Date)
    requires IsYear(currentYear)
    requires Pipeline(animalLines, nameLines, currentYear, today).Success?
    ensures var p, n := ParseAll(animalLines, currentYear), LoadNames(map[], nameLines);
      && p.Success? && n.Success? && FirstShortSpecies(p.value).None?
      && Pipeline(animalLines, nameLines, currentYear, today).value == Report(Assigned(p.value, map[], n.value), today)
  {
  }

  /**
   * A run that completes lists every intake line's animal, with the identifier and name of its rank
   * k among the animals of its species (the k-th lion is "LI0k" and is named after the lions' prefix
   * and k), inside the block of its habitat: the habitat's label line, the bullet lines of the
   * habitat's animals, this one among them, and an empty line.
   */
  lemma EveryArrivalListed(animalLines: seq<string>, nameLines: seq<string>, currentYear: int, today: Date, i: nat)
    requires IsYear(currentYear) && i < |animalLines|
    requires Pipeline(animalLines, nameLines, currentYear, today).Success?
    ensures var p, n := ParseAll(animalLines, currentYear), LoadNames(map[], nameLines);
      && p.Success? && n.Success? && |p.value| == |animalLines|
      && var a, k := p.value[i], Rank(SpeciesOf(p.value), i);
      && ParseLine(animalLines[i], currentYear) == Success(a)
      && 1 <= k <= multiset(SpeciesOf(p.value))[a.species]
      && HabitatLabel(a.species) + ":" in Pipeline(animalLines, nameLines, currentYear, today).value
      && Bullet(a.(uniqueID := GenUniqueID(a.species, k), name := Some(DisplayName(n.value, a.species, k))), today)
         in Pipeline(animalLines, nameLines, currentYear, today).value
      && var s := Assigned(p.value, map[], n.value);
      && var ms := Members(s, HabitatOf(s[i]), HabitatOf);
      && s[i] == a.(uniqueID := GenUniqueID(a.species, k), name := Some(DisplayName(n.value, a.species, k)))
      && Bullet(s[i], today) in Bullets(ms, today)
      && BlockIn(Pipeline(animalLines, nameLines, currentYear, today).value, HabitatStart(s, i, today),
                 HabitatLabel(a.species) + ":", Bullets(ms, today))
  {
    PipelineSucceeds(animalLines, nameLines, currentYear, today);
    var animals := ParseAll(animalLines, currentYear).value;
    var names := LoadNames(map[], nameLines).value;
    ParseAllAt(animalLines, currentYear, i);
    var stamped := Assigned(animals, map[], names);
    AssignedNumbering(animals, names, i);
    EveryAnimalListed(stamped, i, today);
    var k := Rank(SpeciesOf(animals), i);
    assert stamped[i] == animals[i].(uniqueID := GenUniqueID(animals[i].species, k),
                                      name := Some(DisplayName(names, animals[i].species, k)));
  }

  /** A run writes one line per animal, and a label line and an empty line per habitat. */
  lemma OutputLength(animalLines: seq<string>, nameLines: seq<string>, currentYear: int, today: Date)
    requires IsYear(currentYear)
    requires Pipeline(animalLines, nameLines, currentYear, today).Success?
    ensures var p, n := ParseAll(animalLines, currentYear), LoadNames(map[], nameLines);
      && p.Success? && n.Success?
      && |Pipeline(animalLines, nameLines, currentYear, today).value|
         == |animalLines| + 2 * |GroupByHabitat(Assigned(p.value, map[], n.value))|
  {
    PipelineSucceeds(animalLines, nameLines, currentYear, today);
    var animals := ParseAll(animalLines, currentYear).value;
    var names := LoadNames(map[], nameLines).value;
    ParseAllLength(animalLines, currentYear);
    HabitatReportLength(Assigned(animals, map[], names), today);
  }
}
