# Zoo intake, naming and habitat report

A Dafny model of `MyProg.java`, a small batch program for animals arriving at a zoo. Its `main` makes a
`Zoo` and runs four steps:

1. It reads the arrival lines. Each line is split on `", "`. The age is the first space-separated token
   of field 0 and the weight the first of field 4; each becomes an `Animal` whose birthday is derived
   from the age and the birth season.
2. It reads the name lines (`species:prefix`) into a map from species to name prefix; a later line for
   the same species wins.
3. It numbers the animals per species in list order. Each animal gets the identifier `XX` + `%02d` of its
   count, where `XX` is the upper-cased first two letters of its species, and the name prefix (or
   `Unknown`) followed by the count.
4. It groups the animals by `capitalize(species) + " Habitat"` and writes, for each habitat, a header
   line, one bullet line per animal (`Animal.toString`) and an empty line.

The project has these modules:

- `JavaLang`: the Java library behaviour the program relies on: `String.split` with a literal
  separator (leftmost pieces, trailing empty pieces dropped), `trim`, ASCII case mapping,
  `Integer.parseInt`, decimal rendering, `%02d`, 32-bit wrap-around.
- `Animals`: the `Animal` class (its fields, the constructor, the two setters), the birthday
  derivation `genBirthDay` and the rendering `toString`.
- `Intake`: parsing of one arrival line, the reading loop over all lines, and the name directory.
- `Registry`: `genUniqueID`, the display name, and the numbering pass of `assignNamesAndIDs`,
  specified against the rank of each animal among those of its species.
- `Habitats`: `capitalize`, the `groupingBy` step and the writing of the report.
- `ZooProgram`: the `Zoo` class, with its list of animals, species counter and name map as fields; its
  methods with their loops; and `main` as `Run`, proved equal to a pure `Pipeline`.

Inputs are the lines the two files hold. The output is the sequence of lines the report file receives.
The clock is two parameters: the current year (for birthdays) and today's date (the "arrived" date
of every bullet line).

Where the program and its stated intent differ, the model follows the code:

- A malformed arrival line does not get skipped. It raises an unchecked exception (array index,
  number format or date range). Only `IOException` is caught, so the run ends there. The model
  stops reading at the first bad line and `Run` returns that error.
- A line whose season is empty and is the last field does not default to January. `split` drops
  the trailing empty piece, so `parts[7]` is out of bounds and the line fails. The same holds when
  every field after an empty season is empty too. An empty season followed by a further non-empty
  field is kept as `""` and gives January (`Intake.EmptySeasonBeforeMoreFields`), as does any
  season text other than the four season names.
- A name line fails the same way when nothing but colons follows its first `:`, or it has no `:`
  at all (`Lion`, `Lion:`, `Lion::`): `split` drops the trailing empty pieces, so there is no
  `parts[1]`. `Lion: ` gives the prefix `""`.
- A name line with a second `:` does not split at the first one only. Unless nothing but colons
  follows the first `:`, the prefix is the text between the first and the second `:` and the rest
  of the line is dropped, so `Lion:Leo:x` gives the prefix `Leo` (`Intake.NameEntryTwoColons`).
- A species shorter than two characters makes `genUniqueID` throw, after its counter has already
  gone up. The model returns that position as an error.
- Species that differ only in the case of their first letter share a habitat. Two species with the
  same first two letters can receive the same identifier (`Registry.IdentifiersCanCollide`).

## Model

| member | source | states |
|---|---|---|
| Animals.SeasonMonth | MyProg.java:31-48 | the month is 3, 6, 9 or 12 exactly when the lower-cased season is spring, summer, autumn or winter, and 1 exactly when it is none of them |
| Animals.SeasonIgnoresCase | MyProg.java:32 | upper-casing the season text does not change the month |
| Animals.GenBirthDay | MyProg.java:29-50 | a date exists exactly when `currentYear - age` is a valid year, and it is that year, the season's month and day 1 |
| Animals.DateTextRoundTrip | MyProg.java:62-64 | a date with a four-digit year renders as ten characters `yyyy-MM-dd` whose digit fields read back as its year, month and day |
| Animals.DateTextChars | MyProg.java:62-64 | a rendered date consists of digits, `-` and `+` only |
| Animals.RenderReadBack | MyProg.java:60-65 | splitting a bullet's text on `"; "` gives back its eight parts when no field holds a `;` |
| Animals.DateText | MyProg.java:62-64 | the `yyyy-MM-dd` rendering of a date: DateTextRoundTrip and DateTextChars state what it produces |
| Animals.Render | MyProg.java:60-65 | toString's line, the eight parts joined by `"; "`: RenderReadBack states that they split back out |
| Animals.Animal.constructor | MyProg.java:20-27 | the new animal holds the given fields, the derived birthday, and no identifier or name |
| Animals.Animal.SetUniqueID | MyProg.java:52-54 | the identifier becomes the given one |
| Animals.Animal.SetName | MyProg.java:56-58 | the name becomes the given one |
| Intake.ParseFields | MyProg.java:77-88 | a parsed age and weight fit in 32 bits; FieldsArePieces and FieldsOfPieces give the fields in both directions |
| Intake.ParseLine | MyProg.java:77-90 | a parsed animal has no identifier or name yet, a birthday on day 1 of a month 1..12, and a 32-bit weight |
| Intake.FieldsArePieces | MyProg.java:77-88 | fewer than eight `", "`-pieces fail; otherwise sex, species, color, origin and season are pieces 1, 2, 3, 5 and 7, and the age and weight are what parseInt reads from the first blank-separated tokens of pieces 0 and 4, so a token that is no int fails |
| Intake.FieldsOfPieces | MyProg.java:77-88 | conversely, a line of at least eight pieces whose pieces 0 and 4 start with ints parses to those ints and pieces 1, 2, 3, 5 and 7 |
| Intake.EmptySeasonBeforeMoreFields | MyProg.java:77-88 | an empty season that is followed by a further non-empty field is kept by split and gives a January birthday |
| Intake.ParseIntakeLine | MyProg.java:77-90 | a well-formed arrival line built from its fields parses back to exactly those fields and the derived birthday, whatever field 6 holds |
| Intake.LeadingNumber | MyProg.java:82-86 | the first space-separated token of a number followed by a note parses back to that number |
| Intake.ParseAll | MyProg.java:76-92 | the animals of all lines, or the first failing line: ParseAllLength, ParseAllAt, ParseAllFailure and ParseAllStops state it |
| Intake.ReadFrom | MyProg.java:76-92 | the reading loop from line i on, appending to the animals read so far: ReadFromAppends and ReadFromSpec tie it to ParseAll |
| Intake.ParseAllAt | MyProg.java:76-92 | when every line parses, the list has one animal per line, the i-th being line i's |
| Intake.ParseAllFailure | MyProg.java:76-92 | a failed reading names a line that fails, and every line before it parses |
| Intake.ParseAllStops | MyProg.java:76-92 | lines after the first failing one do not change the outcome |
| Intake.ReadAllSpec | MyProg.java:76-92 | the reading loop comes to the list of all animals, or to the first failure with the animals of the lines before it |
| Intake.NameEntry | MyProg.java:102-103 | a name line yields an entry exactly when it splits on `:` into at least two pieces |
| Intake.NameLine | MyProg.java:102-103 | `key:prefix` yields the trimmed key and prefix, and no entry when the prefix is empty |
| Intake.NameEntryTwoColons | MyProg.java:102-103 | `key:prefix:rest` yields the trimmed key and prefix; the rest is dropped |
| Intake.NameLineWithoutColon | MyProg.java:102-103 | a line without `:` yields no entry |
| Intake.LastWriteWins | MyProg.java:101-103 | a key maps to the value of its last entry |
| Intake.UntouchedKey | MyProg.java:101-103 | a key no entry names keeps its earlier presence and value |
| Intake.Directory | MyProg.java:103 | the map after the puts of the entries in order: its keys are the old keys and the entries' keys; LastWriteWins and UntouchedKey give the values |
| Intake.LoadNames | MyProg.java:101-103 | loading fails exactly when some line yields no entry |
| Registry.GenUniqueID | MyProg.java:121-123 | an identifier exists exactly when the species has at least two characters |
| Registry.GenUniqueIDSpec | MyProg.java:121-123 | the identifier is the upper-cased first two letters followed by digits whose value is the count: four characters for counts up to 99, and from 10 on the count's digits without padding |
| Registry.IdentifierDeterminesCount | MyProg.java:122 | for one species, equal identifiers mean equal counts |
| Registry.IdentifiersCanCollide | MyProg.java:122 | `Lion` and `Lizard` both get `LI01` for count 1 |
| Registry.NamePrefix | MyProg.java:116 | the prefix is the map's value for the species, or `Unknown` when it has none, even when the stored value is empty |
| Registry.DisplayNameSpec | MyProg.java:116 | the name is the prefix followed by the decimal count, which parses back to the count |
| Registry.NameDeterminesCount | MyProg.java:116 | for one species, equal names mean equal counts |
| Registry.CountOf | MyProg.java:112 | getOrDefault with 0: the stored count, or 0 for a species not yet counted |
| Registry.Tally | MyProg.java:112 | the counter after counting a sequence of species: TallyKeys and TallyCounts state it |
| Registry.TallyCounts | MyProg.java:112 | after counting a sequence of species, each species' count went up by its number of occurrences |
| Registry.RankBounds | MyProg.java:111-113 | an animal's rank among its species is between 1 and the species' number of animals |
| Registry.RankIncreases | MyProg.java:111-113 | a later animal of the same species has a higher rank |
| Registry.EveryRankTaken | MyProg.java:111-113 | every rank from 1 to the species' number of animals belongs to one of its animals |
| Registry.NumberingIsTally | MyProg.java:112-113 | the count an animal receives is the counter of its species after the animals up to it have been counted |
| Registry.FirstShortSpecies | MyProg.java:113 | the first animal whose species has fewer than two characters, or none if there is none |
| Registry.AssignOne | MyProg.java:112-117 | one pass of the loop on the animal at i: the animals keep their number, and the pass passes or fails at i; AssignOneShort and AssignOneLong give the two cases |
| Registry.AssignFrom | MyProg.java:111-118 | the loop from animal i on: AssignFromSpec and AssignAllSpec state what it comes to |
| Registry.AssignAllSpec | MyProg.java:110-119 | the loop of assignNamesAndIDs comes to the rank-based stamping, or stops at the first short species with the animals before it stamped |
| Registry.AssignedRank | MyProg.java:111-117 | the i-th animal gets the identifier and name of the count its species' counter reaches at it |
| Registry.AssignedNumbering | MyProg.java:110-119 | from an empty counter, the k-th animal of a species gets count k, and nothing but its identifier and name changes |
| Registry.UniqueWithinSpecies | MyProg.java:111-117 | two animals of one species get different identifiers and different names |
| Registry.NumbersAreDense | MyProg.java:111-113 | every count from 1 to a species' number of animals is given to one of them |
| Habitats.Capitalize | MyProg.java:142-147 | capitalizing keeps the length |
| Habitats.CapitalizeSpec | MyProg.java:142-147 | only the first character is upper-cased; the rest is unchanged |
| Habitats.HabitatLabel | MyProg.java:127 | the grouping key `capitalize(species) + " Habitat"`: SameHabitat states when two species share it |
| Habitats.SameHabitat | MyProg.java:127 | two species share a habitat exactly when both are empty, or they agree after upper-casing the first character |
| Habitats.GroupBy | MyProg.java:126-127 | groupingBy, with the groups in the order their first element appears: GroupingCorrect and GroupingPermutes state what it produces |
| Habitats.GroupingCorrect | MyProg.java:126-127 | the groups have distinct keys, none is empty, each holds exactly the animals with its key in list order, and every animal is in one |
| Habitats.GroupingPermutes | MyProg.java:126-127 | the groups together hold the animals as a multiset |
| Habitats.GroupLines | MyProg.java:131-135 | a group writes its key and a colon, one line per member in order, and an empty line |
| Habitats.WriteGroups | MyProg.java:130-136 | the writing loop produces each group's lines, group after group |
| Habitats.ReportLength | MyProg.java:130-136 | the report has one line per member and two per group |
| Habitats.BlockAt | MyProg.java:130-136 | the lines of each group stand together in the report, right after the lines of the groups before it |
| Habitats.EveryMemberListed | MyProg.java:126-136 | every element's group header and its own line appear in the report, and the element is in the group of its key, which holds exactly the elements with that key |
| Habitats.Bullet | MyProg.java:133 | an animal's report line, `"    • "` and its toString: EveryAnimalListed states that it is written |
| Habitats.EveryAnimalListed | MyProg.java:126-136 | every animal's bullet line stands inside its habitat's block: the label line, the non-empty bullet lines of the habitat's animals in list order, this one among them, then an empty line |
| ZooProgram.Zoo.constructor | MyProg.java:68-71 | a new zoo has no animals, an empty counter and no names |
| ZooProgram.Zoo.ReadAnimalsFromFile | MyProg.java:73-96 | the list grows by the animals of the lines read, in order, up to the first failing line |
| ZooProgram.Zoo.ReadNext | MyProg.java:77-91 | one line appends its animal exactly when it parses, and otherwise reports its error and leaves the list alone |
| ZooProgram.Zoo.Admit | MyProg.java:91 | the animal is appended, and no other animal changes |
| ZooProgram.NewAnimal | MyProg.java:77-90 | a new Animal with the line's fields exactly when the line parses, its error otherwise |
| ZooProgram.Zoo.ReadNamesFromFile | MyProg.java:98-108 | the map receives every line's entry in order, or those before the first line without a prefix field |
| ZooProgram.Zoo.AssignNamesAndIDs | MyProg.java:110-119 | the animals, counter and outcome are those AssignAll gives: the list and name map stay the same, and only identifiers and names change |
| ZooProgram.Zoo.AssignNext | MyProg.java:111-117 | one animal's species counter goes up, then the animal gets its identifier and name, or the pass stops on a short species |
| ZooProgram.Zoo.Label | MyProg.java:114-117 | only the i-th animal's identifier and name change |
| ZooProgram.Zoo.OrganizeAndWriteToFile | MyProg.java:125-140 | the lines written are the habitat report of the animals |
| ZooProgram.Zoo.Finish | MyProg.java:154-156 | reading the names, numbering and writing come to the remaining steps of the pipeline |
| ZooProgram.Zoo.NumberAndWrite | MyProg.java:155-156 | numbering and writing come to the steps after the names |
| ZooProgram.Run | MyProg.java:151-157 | main's result is the steps' functions one after the other |
| ZooProgram.Pipeline | MyProg.java:151-157 | what main produces from the two files' lines: PipelineSucceeds, EveryArrivalListed and OutputLength state it |
| ZooProgram.RunStepsSpec | MyProg.java:151-157 | running the loops one after the other equals the pure pipeline |
| ZooProgram.PipelineSucceeds | MyProg.java:151-157 | a completed run parsed every line, loaded the names and met no short species |
| ZooProgram.EveryArrivalListed | MyProg.java:151-157 | a completed run lists every arrival, with the identifier and name of its rank k in its species, inside its habitat's block: the label line, the bullet lines of that habitat's animals, this one among them, then an empty line |
| ZooProgram.OutputLength | MyProg.java:151-157 | a completed run writes one line per arrival and two per habitat |

## Left out

- File reading and writing (`Files.newBufferedReader`, `PrintWriter`, the `IOException` handlers
  with `printStackTrace`) and main's fixed file names: the inputs are the lines of the files and the
  output is the lines written.
- `LocalDate.now()`: the current year and today's date are parameters.
- The console output of the tokens of field 0 inside the reading loop, which does not affect the
  result.
- The iteration order of the habitat `HashMap`: the model writes the habitats in the order their
  first animal appears, and the properties it proves about the report do not depend on an order
  other than that.
- The line separator `println` appends: the output is a sequence of lines.
- Case mapping covers ASCII letters only, and `Integer.parseInt` covers ASCII digits with an optional
  sign in the 32-bit range.
- `DateTimeFormatter` is modelled as a zero-padded `yyyy-MM-dd`, with a `+` before years above 9999
  and the year of era before year 1.
- Registry.GenUniqueID: strings are sequences of Unicode code points, while Java's `length` and
  `substring` count UTF-16 units. For a species character outside the Basic Multilingual Plane, the
  model's "first two characters" differ from Java's: `"🦁"` is too short for the model but not for
  Java, and `"🦁x"` gives different letters. The same holds wherever the model slices a string.
- Registry.Tally: the per-species counter is an unbounded integer; its 32-bit overflow after
  2^31 - 1 animals of one species is not modelled.
- `capitalize(null)` and the other null cases: the model has no nulls. An animal's identifier and
  name are absent until set, and they render as `null` when absent.
- Animals.Animal.constructor requires the birthday to exist: in the program, a year that
  `LocalDate.of` rejects throws inside the constructor. The model reports this as a `YearOutOfRange`
  error of the line, before the constructor is called.
- The unchecked exceptions are modelled as the error results of `Run` and its steps. Nothing after
  them runs, as in the program.
