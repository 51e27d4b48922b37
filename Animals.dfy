/**
 * The Animal class of MyProg.java: one admitted animal, the birthday it is given from an age and a
 * birth season, the setters for its identifier and name, and the line toString renders for it.
 */
module Animals {
  import opened Wrappers
  import opened JavaLang

  /** A LocalDate: months run from 1 (January) to 12 (December). */
  datatype Date = Date(year: int, month: nat, day: nat)

  /** The years LocalDate accepts; LocalDate.of throws a DateTimeException outside them. */
  const MinYear: int := -999_999_999
  const MaxYear: int := 999_999_999

  predicate IsYear(y: int) {
    MinYear <= y <= MaxYear
  }

  /**
   * The month genBirthDay gives a birth season: the season is lower-cased and compared exactly with
   * the four season names; every other text, the empty one included, means January.
   */
  function SeasonMonth(birthSeason: string): (month: nat)
    ensures month == 3 <==> Lower(birthSeason) == "spring"
    ensures month == 6 <==> Lower(birthSeason) == "summer"
    ensures month == 9 <==> Lower(birthSeason) == "autumn"
    ensures month == 12 <==> Lower(birthSeason) == "winter"
    ensures month == 1 <==> Lower(birthSeason) !in {"spring", "summer", "autumn", "winter"}
  {
    var key := Lower(birthSeason);
    if key == "spring" then 3
    else if key == "summer" then 6
    else if key == "autumn" then 9
    else if key == "winter" then 12
    else 1
  }

  /** The birth season is read without regard to the case of its letters. */
  lemma SeasonIgnoresCase(birthSeason: string)
    ensures SeasonMonth(Upper(birthSeason)) == SeasonMonth(birthSeason)
  {
    LowerOfUpper(birthSeason);
  }

  /**
   * Animal.genBirthDay: the first day of the season's month, age years before the current year.
   * The subtraction is Java int arithmetic and the year must be one LocalDate accepts; the failure
   * carries the rejected year. Whatever the wrap-around, a date is produced exactly when the true
   * difference is a valid year, and it is then that year.
   */
  function GenBirthDay(birthSeason: string, age: int, currentYear: int): (r: Result<Date, int>)
    requires IsInt32(age) && IsYear(currentYear)
    ensures r.Success? <==> IsYear(currentYear - age)
    ensures r.Success? ==> r.value == Date(currentYear - age, SeasonMonth(birthSeason), 1)
  {
    var year := Wrap32(currentYear - age);
    if IsYear(year) then Success(Date(year, SeasonMonth(birthSeason), 1)) else Failure(year)
  }

  // ---------------------------------------------------------------------------------------------
  // Rendering dates: DateTimeFormatter.ofPattern("yyyy-MM-dd")

  /**
   * The "yyyy" field: the year of the era (so year 0 is 1 and year -1 is 2; the era itself is not
   * printed), zero padded to four digits, with a leading '+' when it needs more than four.
   */
  function YearText(year: int): string {
    var yearOfEra: nat := if year >= 1 then year else 1 - year;
    if yearOfEra > 9999 then "+" + NatToString(yearOfEra) else ZeroPad(yearOfEra, 4)
  }

  /** A date as "yyyy-MM-dd": digits and the two separators, and a sign only for a year beyond 9999. */
  function DateText(d: Date): string {
    YearText(d.year) + "-" + ZeroPad(d.month, 2) + "-" + ZeroPad(d.day, 2)
  }

  /** A date renders as digits and the two separators, and a sign only for a year beyond 9999. */
  lemma DateTextChars(d: Date)
    ensures DateChars(DateText(d))
  {
    YearTextChars(d.year);
    PaddedChars(d.month, 2);
    PaddedChars(d.day, 2);
    DateCharsConcat(YearText(d.year), "-");
    DateCharsConcat(YearText(d.year) + "-", ZeroPad(d.month, 2));
    DateCharsConcat(YearText(d.year) + "-" + ZeroPad(d.month, 2), "-");
    DateCharsConcat(YearText(d.year) + "-" + ZeroPad(d.month, 2) + "-", ZeroPad(d.day, 2));
  }

  /** Every character is a digit, '-' or '+'. */
  predicate DateChars(t: string) {
    forall i :: 0 <= i < |t| ==> IsDigit(t[i]) || t[i] == '-' || t[i] == '+'
  }

  lemma DateCharsConcat(x: string, y: string)
    requires DateChars(x) && DateChars(y)
    ensures DateChars(x + y)
  {
    forall i | 0 <= i < |x + y|
      ensures IsDigit((x + y)[i]) || (x + y)[i] == '-' || (x + y)[i] == '+'
    {
      if i >= |x| {
        assert (x + y)[i] == y[i - |x|];
      }
    }
  }

  lemma PaddedChars(n: nat, width: nat)
    ensures DateChars(ZeroPad(n, width))
  {
    ZeroPadSpec(n, width);
  }

  lemma YearTextChars(year: int)
    ensures DateChars(YearText(year))
  {
    var yearOfEra: nat := if year >= 1 then year else 1 - year;
    var y := YearText(year);
    if yearOfEra > 9999 {
      var digits := NatToString(yearOfEra);
      NatToStringSpec(yearOfEra);
      forall i | 1 <= i < |y|
        ensures IsDigit(y[i])
      {
        assert y[i] == digits[i - 1];
      }
    } else {
      PaddedChars(yearOfEra, 4);
    }
  }

  /** A date of the years 1 to 9999 renders as ten characters from which its three numbers read back. */
  lemma DateTextRoundTrip(d: Date)
    requires 1 <= d.year <= 9999 && d.month <= 99 && d.day <= 99
    ensures var t := DateText(d);
      && |t| == 10 && t[4] == '-' && t[7] == '-'
      && AllDigits(t[..4]) && DigitsValue(t[..4]) == d.year
      && AllDigits(t[5..7]) && DigitsValue(t[5..7]) == d.month
      && AllDigits(t[8..]) && DigitsValue(t[8..]) == d.day
  {
    NatToStringSpec(d.year);
    NatToStringSpec(d.month);
    NatToStringSpec(d.day);
    FixedPad(d.year, 4);
    FixedPad(d.month, 2);
    FixedPad(d.day, 2);
    DateFields(ZeroPad(d.year, 4), ZeroPad(d.month, 2), ZeroPad(d.day, 2));
  }

  /** A number written in no more than width digits pads to exactly width digits that read back. */
  lemma FixedPad(n: nat, width: nat)
    requires |NatToString(n)| <= width
    ensures var r := ZeroPad(n, width);
      |r| == width && AllDigits(r) && DigitsValue(r) == n
  {
    ZeroPadSpec(n, width);
  }

  /** Where the three fields of a date of four, two and two characters sit in its rendering. */
  lemma DateFields(y: string, m: string, dd: string)
    requires |y| == 4 && |m| == 2 && |dd| == 2
    ensures var t := y + "-" + m + "-" + dd;
      |t| == 10 && t[4] == '-' && t[7] == '-' && t[..4] == y && t[5..7] == m && t[8..] == dd
  {
  }

  // ---------------------------------------------------------------------------------------------
  // The animal

  /** The fields of an Animal; uniqueID and name are None until they are set (null in the source). */
  datatype AnimalRecord = AnimalRecord(
    species: string,
    sex: string,
    color: string,
    weight: int,
    origin: string,
    birthday: Date,
    uniqueID: Option<string>,
    name: Option<string>)

  /** How "%s" renders a String field that may still be null. */
  function NullableText(s: Option<string>): string {
    match s
    case None => "null"
    case Some(t) => t
  }

  /** The eight "; "-separated parts of Animal.toString, today being the date the report is made. */
  function RenderParts(a: AnimalRecord, today: Date): seq<string> {
    [ NullableText(a.uniqueID),
      NullableText(a.name),
      "birth date: " + DateText(a.birthday),
      a.color + " color",
      a.sex,
      IntToString(a.weight) + " pounds",
      "from " + a.origin,
      "arrived " + DateText(today) ]
  }

  /**
   * Animal.toString: "<id>; <name>; birth date: <date>; <color> color; <sex>; <weight> pounds;
   * from <origin>; arrived <today>".
   */
  function Render(a: AnimalRecord, today: Date): string {
    Join(RenderParts(a, today), "; ")
  }

  /** When no text field holds a ';', every field of the rendered line can be read back by splitting it. */
  lemma {:induction false} RenderReadBack(a: AnimalRecord, today: Date)
    requires ';' !in NullableText(a.uniqueID) && ';' !in NullableText(a.name)
    requires ';' !in a.color && ';' !in a.sex && ';' !in a.origin
    ensures Split(Render(a, today), "; ") == RenderParts(a, today)
  {
    var parts := RenderParts(a, today);
    NoSemicolonInParts(a, today);
    assert "; "[0] == ';';
    SplitJoin(parts, "; ");
  }

  lemma NoSemicolonInParts(a: AnimalRecord, today: Date)
    requires ';' !in NullableText(a.uniqueID) && ';' !in NullableText(a.name)
    requires ';' !in a.color && ';' !in a.sex && ';' !in a.origin
    ensures forall k :: 0 <= k < |RenderParts(a, today)| ==> ';' !in RenderParts(a, today)[k]
    ensures RenderParts(a, today)[7] != []
  {
    NoSemicolonInDate(a.birthday);
    NoSemicolonInDate(today);
    NoSemicolonInNumber(a.weight);
    NoSemicolonInLabelled(NullableText(a.uniqueID), NullableText(a.name), DateText(a.birthday), a.color, a.sex,
                          IntToString(a.weight), a.origin, DateText(today));
  }

  /** The parts of RenderParts, the values already rendered. */
  lemma NoSemicolonInLabelled(id: string, name: string, birth: string, color: string, sex: string,
                              weight: string, origin: string, arrival: string)
    requires ';' !in id && ';' !in name && ';' !in birth && ';' !in color && ';' !in sex
    requires ';' !in weight && ';' !in origin && ';' !in arrival
    ensures var parts := [id, name, "birth date: " + birth, color + " color", sex, weight + " pounds",
                          "from " + origin, "arrived " + arrival];
      forall k :: 0 <= k < |parts| ==> ';' !in parts[k]
  {
    NoSemicolonInLabels();
    NotInConcat(';', "birth date: ", birth);
    NotInConcat(';', color, " color");
    NotInConcat(';', weight, " pounds");
    NotInConcat(';', "from ", origin);
    NotInConcat(';', "arrived ", arrival);
  }

  lemma NoSemicolonInLabels()
    ensures ';' !in "birth date: " && ';' !in " color" && ';' !in " pounds" && ';' !in "from " && ';' !in "arrived "
  {
  }

  lemma NoSemicolonInDate(d: Date)
    ensures ';' !in DateText(d)
  {
    var t := DateText(d);
    DateTextChars(d);
    forall i | 0 <= i < |t|
      ensures t[i] != ';'
    {
      assert IsDigit(t[i]) || t[i] == '-' || t[i] == '+';
    }
  }

  lemma NoSemicolonInNumber(n: int)
    ensures ';' !in IntToString(n)
  {
    var t := IntToString(n);
    IntToStringSpec(n);
    forall i | 0 <= i < |t|
      ensures t[i] != ';'
    {
      if i > 0 {
        assert t[i] == t[1..][i - 1];
      }
    }
  }

  lemma NotInConcat(c: char, x: string, y: string)
    requires c !in x && c !in y
    ensures c !in x + y
  {
  }

  /** Animal: its fields are updated in place by the two setters. */
  class Animal {
    const species: string
    const sex: string
    const color: string
    const weight: int
    const origin: string
    var uniqueID: Option<string>
    const birthday: Date
    var name: Option<string>

    /** The animal's fields as a value. */
    function Value(): AnimalRecord
      reads this`uniqueID, this`name
    {
      AnimalRecord(species, sex, color, weight, origin, birthday, uniqueID, name)
    }

    /** new Animal(...): stores the fields, derives the birthday and leaves the identifier and name unset. */
    constructor (species: string, sex: string, color: string, weight: int, origin: string,
                 age: int, birthSeason: string, currentYear: int)
      requires IsInt32(age) && IsYear(currentYear)
      requires GenBirthDay(birthSeason, age, currentYear).Success?
      ensures Value() == AnimalRecord(species, sex, color, weight, origin,
                                      GenBirthDay(birthSeason, age, currentYear).value, None, None)
    {
      this.species := species;
      this.sex := sex;
      this.color := color;
      this.weight := weight;
      this.origin := origin;
      this.birthday := GenBirthDay(birthSeason, age, currentYear).value;
      this.uniqueID := None;
      this.name := None;
    }

    method SetUniqueID(uniqueID: string)
      modifies this`uniqueID
      ensures this.uniqueID == Some(uniqueID)
    {
      this.uniqueID := Some(uniqueID);
    }

    method SetName(name: string)
      modifies this`name
      ensures this.name == Some(name)
    {
      this.name := Some(name);
    }
  }
}
