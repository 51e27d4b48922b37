/**
 * What Zoo.assignNamesAndIDs and Zoo.genUniqueID compute: a per-species counter is bumped for each
 * animal in list order, and the new count gives the animal its identifier (two upper-cased species
 * letters and the count as two digits) and its name (the species' prefix and the count).
 */
module Registry {
  import opened Wrappers
  import opened JavaLang
  import opened Animals

  /**
   * genUniqueID: the species' first two characters upper-cased, then the count formatted by "%02d".
   * substring(0, 2) throws on a species shorter than two characters: None.
   */
  function GenUniqueID(species: string, count: int): (r: Option<string>)
    ensures r.Some? <==> |species| >= 2
  {
    if |species| < 2 then None else Some(Upper(species[..2]) + Format02d(count))
  }

  /**
   * An identifier is the two upper-cased letters followed by at least two digits that read back as
   * the count; it is four characters long for the counts 0 to 99, and from 10 on the digits are the
   * count's decimal digits without padding.
   */
  lemma GenUniqueIDSpec(species: string, count: int)
    requires |species| >= 2 && count >= 0
    ensures var id := GenUniqueID(species, count).value;
      && |id| >= 4 && id[..2] == Upper(species[..2])
      && AllDigits(id[2..]) && DigitsValue(id[2..]) == count
      && (count <= 99 ==> |id| == 4)
      && (count >= 10 ==> |id| == 2 + |NatToString(count)|)
  {
    var letters, digits := Upper(species[..2]), Format02d(count);
    Format02dSpec(count);
    ZeroPadSpec(count, 2);
    NatToStringSpec(count);
    assert (letters + digits)[..2] == letters;
    assert (letters + digits)[2..] == digits;
  }

  /** For one species, the identifier determines the count. */
  lemma IdentifierDeterminesCount(species: string, c1: int, c2: int)
    requires |species| >= 2 && c1 >= 0 && c2 >= 0
    requires GenUniqueID(species, c1) == GenUniqueID(species, c2)
    ensures c1 == c2
  {
    GenUniqueIDSpec(species, c1);
    GenUniqueIDSpec(species, c2);
  }

  /** The identifier only sees two letters: "Lion" and "Lizard" share the identifier for a count. */
  lemma IdentifiersCanCollide()
    ensures GenUniqueID("Lion", 1) == GenUniqueID("Lizard", 1) == Some("LI01")
  {
    assert "Lion"[..2] == "Li" == "Lizard"[..2];
    assert Upper("Li") == "LI" by {
      assert UpperChar('L') == 'L' && UpperChar('i') == 'I';
    }
    assert Format02d(1) == "01" by {
      assert NatToString(1) == "1";
      assert Zeros(1) == "0";
    }
    assert "LI" + "01" == "LI01";
  }

  /** animalNames.getOrDefault(species, "Unknown"): the stored prefix, even an empty one, else "Unknown". */
  function NamePrefix(names: map<string, string>, species: string): (p: string)
    ensures species in names ==> p == names[species]
    ensures species !in names ==> p == "Unknown"
  {
    if species in names then names[species] else "Unknown"
  }

  /** The name an animal of the species gets for a count: the prefix followed by the count in decimal. */
  function DisplayName(names: map<string, string>, species: string, count: int): string {
    NamePrefix(names, species) + IntToString(count)
  }

  /** A name splits into the species' prefix and the count, which reads back. */
  lemma DisplayNameSpec(names: map<string, string>, species: string, count: int)
    ensures var n, p := DisplayName(names, species, count), NamePrefix(names, species);
      && |n| > |p| && n[..|p|] == p && n[|p|..] == IntToString(count)
      && (IsInt32(count) ==> ParseInt(n[|p|..]) == Some(count))
  {
    var p, d := NamePrefix(names, species), IntToString(count);
    assert (p + d)[..|p|] == p && (p + d)[|p|..] == d;
    if IsInt32(count) {
      ParseIntToString(count);
    }
  }

  /** For one species, the name determines the count. */
  lemma NameDeterminesCount(names: map<string, string>, species: string, c1: int, c2: int)
    requires DisplayName(names, species, c1) == DisplayName(names, species, c2)
    ensures c1 == c2
  {
    DisplayNameSpec(names, species, c1);
    DisplayNameSpec(names, species, c2);
    IntToStringInjective(c1, c2);
  }

  // ---------------------------------------------------------------------------------------------
  // The species counter

  /** speciesCount.getOrDefault(species, 0) */
  function CountOf(counts: map<string, int>, species: string): (c: int)
    ensures species !in counts ==> c == 0
    ensures species in counts ==> c == counts[species]
  {
    if species in counts then counts[species] else 0
  }

  /** The species of each animal, in list order. */
  function SpeciesOf(animals: seq<AnimalRecord>): (xs: seq<string>)
    ensures |xs| == |animals| && forall i :: 0 <= i < |animals| ==> xs[i] == animals[i].species
  {
    seq(|animals|, i requires 0 <= i < |animals| => animals[i].species)
  }

  /** The counter after speciesCount.put(s, getOrDefault(s, 0) + 1) for each s of xs in turn. */
  function Tally(counts: map<string, int>, xs: seq<string>): (m: map<string, int>)
    decreases |xs|
  {
    if xs == [] then counts
    else
      var init, x := xs[..|xs| - 1], xs[|xs| - 1];
      var m0 := Tally(counts, init);
      m0[x := CountOf(m0, x) + 1]
  }

  /** The counter has a key for every species it held before and every species counted, and no other. */
  lemma {:induction false} TallyKeys(counts: map<string, int>, xs: seq<string>)
    ensures Tally(counts, xs).Keys == counts.Keys + set x | x in xs
    decreases |xs|
  {
    if xs != [] {
      var init, x := xs[..|xs| - 1], xs[|xs| - 1];
      TallyKeys(counts, init);
      assert xs == init + [x];
      assert (set y | y in xs) == (set y | y in init) + {x};
    }
  }

  /** The counter holds what it held before plus the number of occurrences of the species. */
  lemma {:induction false} TallyCounts(counts: map<string, int>, xs: seq<string>, s: string)
    ensures CountOf(Tally(counts, xs), s) == CountOf(counts, s) + multiset(xs)[s]
    decreases |xs|
  {
    if xs != [] {
      var init, x := xs[..|xs| - 1], xs[|xs| - 1];
      assert xs == init + [x];
      TallyCounts(counts, init, s);
    }
  }

  /** Rank(xs, i): xs[i] is the Rank(xs, i)-th occurrence of its species in xs. */
  function Rank(xs: seq<string>, i: nat): nat
    requires i < |xs|
  {
    multiset(xs[..i + 1])[xs[i]]
  }

  /** A rank counts the animal itself and never more than its species' occurrences. */
  lemma RankBounds(xs: seq<string>, i: nat)
    requires i < |xs|
    ensures 1 <= Rank(xs, i) <= multiset(xs)[xs[i]]
  {
    assert xs[..i + 1][i] == xs[i];
    assert xs == xs[..i + 1] + xs[i + 1..];
  }

  /** A later animal of the same species has a larger rank. */
  lemma RankIncreases(xs: seq<string>, i: nat, j: nat)
    requires i < j < |xs| && xs[i] == xs[j]
    ensures Rank(xs, i) < Rank(xs, j)
  {
    assert xs[..j + 1] == xs[..i + 1] + xs[i + 1..j + 1];
    assert xs[i + 1..j + 1][j - i - 1] == xs[j];
  }

  /** Every rank from 1 to the species' number of occurrences is taken by one of its animals. */
  lemma {:induction false} EveryRankTaken(xs: seq<string>, s: string, k: nat)
    requires 1 <= k <= multiset(xs)[s]
    ensures exists i :: 0 <= i < |xs| && xs[i] == s && Rank(xs, i) == k
    decreases |xs|
  {
    var last := |xs| - 1;
    var init := xs[..last];
    assert xs == init + [xs[last]];
    assert xs[..last + 1] == xs;
    if xs[last] == s && k == multiset(xs)[s] {
      assert Rank(xs, last) == k;
    } else {
      EveryRankTaken(init, s, k);
      var i :| 0 <= i < |init| && init[i] == s && Rank(init, i) == k;
      assert init[..i + 1] == xs[..i + 1];
      assert Rank(xs, i) == k;
    }
  }

  /**
   * The count each animal is given, in list order: what the counter held for its species beforehand,
   * plus the animal's rank within its species.
   */
  function Numbering(counts: map<string, int>, xs: seq<string>): (cs: seq<int>)
    ensures |cs| == |xs|
    ensures forall i :: 0 <= i < |xs| ==> cs[i] == CountOf(counts, xs[i]) + Rank(xs, i)
  {
    seq(|xs|, i requires 0 <= i < |xs| => CountOf(counts, xs[i]) + Rank(xs, i))
  }

  /** The count given is what the counter holds right after the animal has been counted. */
  lemma NumberingIsTally(counts: map<string, int>, xs: seq<string>, i: nat)
    requires i < |xs|
    ensures Numbering(counts, xs)[i] == CountOf(Tally(counts, xs[..i + 1]), xs[i])
  {
    TallyCounts(counts, xs[..i + 1], xs[i]);
  }

  // ---------------------------------------------------------------------------------------------
  // Assigning

  /** setUniqueID and setName. */
  function Stamp(a: AnimalRecord, id: Option<string>, name: string): AnimalRecord {
    a.(uniqueID := id, name := Some(name))
  }

  /** The index of the first animal whose species is too short for genUniqueID, if any. */
  function FirstShortSpecies(animals: seq<AnimalRecord>): (r: Option<nat>)
    ensures r.Some? ==> r.value < |animals| && |animals[r.value].species| < 2
    ensures r.Some? ==> forall j :: 0 <= j < r.value ==> |animals[j].species| >= 2
    ensures r.None? ==> forall j :: 0 <= j < |animals| ==> |animals[j].species| >= 2
  {
    var shorts := seq(|animals|, j requires 0 <= j < |animals| => if |animals[j].species| < 2 then None else Some(()));
    assert forall j :: 0 <= j < |animals| ==> (shorts[j].None? <==> |animals[j].species| < 2);
    FirstNone(shorts)
  }

  /**
   * The animals once assignNamesAndIDs has handled the first n of them, the counter starting as
   * counts: the n-th animal is stamped with the count its species has once it is counted.
   */
  function AssignedUpTo(animals: seq<AnimalRecord>, counts: map<string, int>, names: map<string, string>, n: nat)
    : (r: seq<AnimalRecord>)
    requires n <= |animals|
    ensures |r| == |animals|
  {
    if n == 0 then animals
    else AssignedUpTo(animals, counts, names, n - 1)[n - 1 := StampedAt(animals, counts, names, n - 1)]
  }

  /** The animal at i stamped with the count its species has once the animals up to it are counted. */
  function StampedAt(animals: seq<AnimalRecord>, counts: map<string, int>, names: map<string, string>, i: nat)
    : AnimalRecord
    requires i < |animals|
  {
    var s := animals[i].species;
    var c := CountOf(Tally(counts, SpeciesOf(animals)[..i + 1]), s);
    Stamp(animals[i], GenUniqueID(s, c), DisplayName(names, s, c))
  }

  /**
   * Each of the first n animals carries the identifier and name of the count its species has once
   * it is counted, and keeps its other fields.
   */
  lemma {:induction false} AssignedAt(animals: seq<AnimalRecord>, counts: map<string, int>, names: map<string, string>,
                                      n: nat, i: nat)
    requires i < n <= |animals|
    ensures AssignedUpTo(animals, counts, names, n)[i] == StampedAt(animals, counts, names, i)
    decreases n
  {
    if i < n - 1 {
      AssignedAt(animals, counts, names, n - 1, i);
    }
  }

  /** The animals from n on are untouched. */
  lemma {:induction false} AssignedBeyond(animals: seq<AnimalRecord>, counts: map<string, int>, names: map<string, string>,
                                          n: nat, i: nat)
    requires n <= i < |animals|
    ensures AssignedUpTo(animals, counts, names, n)[i] == animals[i]
    decreases n
  {
    if n > 0 {
      AssignedBeyond(animals, counts, names, n - 1, i);
    }
  }

  /** The count an animal is stamped with is what the counter held for its species plus its rank. */
  lemma AssignedRank(animals: seq<AnimalRecord>, counts: map<string, int>, names: map<string, string>, i: nat)
    requires i < |animals|
    ensures var s, c := animals[i].species, Numbering(counts, SpeciesOf(animals))[i];
      Assigned(animals, counts, names)[i] == Stamp(animals[i], GenUniqueID(s, c), DisplayName(names, s, c))
  {
    AssignedAt(animals, counts, names, |animals|, i);
    NumberingIsTally(counts, SpeciesOf(animals), i);
  }

  /** What assignNamesAndIDs makes of the animals when it runs to the end. */
  function Assigned(animals: seq<AnimalRecord>, counts: map<string, int>, names: map<string, string>): (r: seq<AnimalRecord>)
    ensures |r| == |animals|
  {
    AssignedUpTo(animals, counts, names, |animals|)
  }

  // ---------------------------------------------------------------------------------------------
  // The loop of assignNamesAndIDs, pass by pass

  /** Where assignNamesAndIDs stands: how it ended (or Pass while it runs), the animals and the counter. */
  datatype Stamping = Stamping(outcome: Outcome<nat>, animals: seq<AnimalRecord>, counts: map<string, int>)

  /**
   * One pass of the loop, on the animal at i: the counter of its species goes up by one, then
   * genUniqueID either throws (Fail(i), the animal unchanged) or the animal gets the identifier
   * and name of the new count.
   */
  function AssignOne(animals: seq<AnimalRecord>, counts: map<string, int>, names: map<string, string>, i: nat)
    : (r: Stamping)
    requires i < |animals|
    ensures |r.animals| == |animals|
    ensures r.outcome == Pass || r.outcome == Fail(i)
  {
    var s := animals[i].species;
    var c := CountOf(counts, s) + 1;
    var counted := counts[s := c];
    match GenUniqueID(s, c)
    case None => Stamping(Fail(i), animals, counted)
    case Some(id) => Stamping(Pass, animals[i := Stamp(animals[i], Some(id), DisplayName(names, s, c))], counted)
  }

  /** The rest of the loop, from the animal at i on: the passes run in list order until one throws. */
  function AssignFrom(animals: seq<AnimalRecord>, counts: map<string, int>, names: map<string, string>, i: nat)
    : (r: Stamping)
    requires i <= |animals|
    decreases |animals| - i
  {
    if i == |animals| then Stamping(Pass, animals, counts)
    else
      var next := AssignOne(animals, counts, names, i);
      if next.outcome.Fail? then next else AssignFrom(next.animals, next.counts, names, i + 1)
  }

  /** The whole loop. */
  function AssignAll(animals: seq<AnimalRecord>, counts: map<string, int>, names: map<string, string>): Stamping {
    AssignFrom(animals, counts, names, 0)
  }

  /**
   * What the loop comes to: it throws exactly when some species is under two characters, at the
   * first such animal, with the animals before it stamped and the counter counting up to that
   * animal; otherwise it stamps every animal as Assigned says and counts every species.
   */
  function AssignResult(animals: seq<AnimalRecord>, counts: map<string, int>, names: map<string, string>): Stamping {
    match FirstShortSpecies(animals)
    case None => Stamping(Pass, Assigned(animals, counts, names), Tally(counts, SpeciesOf(animals)))
    case Some(k) => Stamping(Fail(k), AssignedUpTo(animals, counts, names, k), Tally(counts, SpeciesOf(animals)[..k + 1]))
  }

  /** Counting one more species extends the tally by one. */
  lemma TallyStep(counts: map<string, int>, xs: seq<string>, i: nat)
    requires i < |xs|
    ensures Tally(counts, xs[..i + 1]) == Tally(counts, xs[..i])[xs[i] := CountOf(Tally(counts, xs[..i]), xs[i]) + 1]
  {
    assert xs[..i + 1][..i] == xs[..i];
  }

  /**
   * The pass on the animal at i, once the animals before it are stamped and counted, on a species of
   * at least two characters: it counts the animal and stamps it as AssignedUpTo says.
   */
  lemma AssignStep(animals: seq<AnimalRecord>, counts: map<string, int>, names: map<string, string>, i: nat)
    requires i < |animals| && |animals[i].species| >= 2
    ensures AssignOne(AssignedUpTo(animals, counts, names, i), Tally(counts, SpeciesOf(animals)[..i]), names, i)
         == Stamping(Pass, AssignedUpTo(animals, counts, names, i + 1), Tally(counts, SpeciesOf(animals)[..i + 1]))
  {
    var xs := SpeciesOf(animals);
    var done := AssignedUpTo(animals, counts, names, i);
    var cnt := Tally(counts, xs[..i]);
    AssignedBeyond(animals, counts, names, i, i);
    TallyStep(counts, xs, i);
    var s := animals[i].species;
    var c := CountOf(cnt, s) + 1;
    assert xs[i] == s;
    assert Tally(counts, xs[..i + 1]) == cnt[s := c];
    assert CountOf(Tally(counts, xs[..i + 1]), s) == c;
    assert AssignedUpTo(animals, counts, names, i + 1) == done[i := Stamp(animals[i], GenUniqueID(s, c), DisplayName(names, s, c))];
    AssignOneLong(done, cnt, names, i, s, c);
  }

  /** The same pass on a shorter species: it counts the animal and throws, whatever came before. */
  lemma AssignStepShort(done: seq<AnimalRecord>, counts: map<string, int>, xs: seq<string>,
                        names: map<string, string>, i: nat)
    requires i < |done| && i < |xs| && done[i].species == xs[i] && |xs[i]| < 2
    ensures AssignOne(done, Tally(counts, xs[..i]), names, i) == Stamping(Fail(i), done, Tally(counts, xs[..i + 1]))
    ensures AssignFrom(done, Tally(counts, xs[..i]), names, i) == Stamping(Fail(i), done, Tally(counts, xs[..i + 1]))
  {
    TallyStep(counts, xs, i);
    AssignOneShort(done, Tally(counts, xs[..i]), names, i, xs[i]);
  }

  /** A pass on a species under two characters counts it and throws. */
  lemma AssignOneShort(animals: seq<AnimalRecord>, counts: map<string, int>, names: map<string, string>, i: nat,
                       s: string)
    requires i < |animals| && animals[i].species == s && |s| < 2
    ensures AssignOne(animals, counts, names, i) == Stamping(Fail(i), animals, counts[s := CountOf(counts, s) + 1])
  {
  }

  /** A pass on a longer species counts it and stamps it with the new count. */
  lemma AssignOneLong(animals: seq<AnimalRecord>, counts: map<string, int>, names: map<string, string>, i: nat,
                      s: string, c: int)
    requires i < |animals| && animals[i].species == s && |s| >= 2 && c == CountOf(counts, s) + 1
    ensures AssignOne(animals, counts, names, i)
        == Stamping(Pass, animals[i := Stamp(animals[i], GenUniqueID(s, c), DisplayName(names, s, c))], counts[s := c])
  {
  }

  /** A pass that does not throw hands the loop on to the next animal. */
  lemma AssignFromNext(animals: seq<AnimalRecord>, counts: map<string, int>, names: map<string, string>, i: nat)
    requires i < |animals| && AssignOne(animals, counts, names, i).outcome.Pass?
    ensures var next := AssignOne(animals, counts, names, i);
      AssignFrom(animals, counts, names, i) == AssignFrom(next.animals, next.counts, names, i + 1)
  {
  }

  /** With the first i animals stamped and counted, a pass on a long enough species stamps and counts the next. */
  lemma AssignFromStep(animals: seq<AnimalRecord>, counts: map<string, int>, names: map<string, string>, i: nat)
    requires i < |animals| && |animals[i].species| >= 2
    ensures AssignFrom(AssignedUpTo(animals, counts, names, i), Tally(counts, SpeciesOf(animals)[..i]), names, i)
         == AssignFrom(AssignedUpTo(animals, counts, names, i + 1), Tally(counts, SpeciesOf(animals)[..i + 1]), names, i + 1)
  {
    AssignStep(animals, counts, names, i);
    AssignFromNext(AssignedUpTo(animals, counts, names, i), Tally(counts, SpeciesOf(animals)[..i]), names, i);
  }

  /** The loop reaching the first short species throws there. */
  lemma AssignFromShort(animals: seq<AnimalRecord>, counts: map<string, int>, names: map<string, string>, i: nat)
    requires i < |animals| && |animals[i].species| < 2
    requires forall k :: 0 <= k < i ==> |animals[k].species| >= 2
    ensures AssignFrom(AssignedUpTo(animals, counts, names, i), Tally(counts, SpeciesOf(animals)[..i]), names, i)
         == AssignResult(animals, counts, names)
  {
    var xs, done := SpeciesOf(animals), AssignedUpTo(animals, counts, names, i);
    AssignedBeyond(animals, counts, names, i, i);
    assert done[i].species == xs[i];
    AssignStepShort(done, counts, xs, names, i);
    AssignResultShort(animals, counts, names, i);
  }

  /** When the animal at i is the first with a short species, the loop throws there. */
  lemma AssignResultShort(animals: seq<AnimalRecord>, counts: map<string, int>, names: map<string, string>, i: nat)
    requires i < |animals| && |animals[i].species| < 2
    requires forall k :: 0 <= k < i ==> |animals[k].species| >= 2
    ensures AssignResult(animals, counts, names)
         == Stamping(Fail(i), AssignedUpTo(animals, counts, names, i), Tally(counts, SpeciesOf(animals)[..i + 1]))
  {
    FirstShortSpeciesIs(animals, i);
  }

  /** Once the first i animals are stamped and counted, the rest of the loop comes to AssignResult. */
  lemma {:induction false} AssignFromSpec(animals: seq<AnimalRecord>, counts: map<string, int>,
                                          names: map<string, string>, i: nat)
    requires i <= |animals|
    requires forall k :: 0 <= k < i ==> |animals[k].species| >= 2
    ensures AssignFrom(AssignedUpTo(animals, counts, names, i), Tally(counts, SpeciesOf(animals)[..i]), names, i)
         == AssignResult(animals, counts, names)
    decreases |animals| - i, 1
  {
    if i == |animals| {
      AssignFromEnd(animals, counts, names);
    } else if |animals[i].species| < 2 {
      AssignFromShort(animals, counts, names, i);
    } else {
      AssignFromLong(animals, counts, names, i);
    }
  }

  /** The step of AssignFromSpec on a species of at least two characters. */
  lemma {:induction false} AssignFromLong(animals: seq<AnimalRecord>, counts: map<string, int>,
                                          names: map<string, string>, i: nat)
    requires i < |animals| && |animals[i].species| >= 2
    requires forall k :: 0 <= k < i ==> |animals[k].species| >= 2
    ensures AssignFrom(AssignedUpTo(animals, counts, names, i), Tally(counts, SpeciesOf(animals)[..i]), names, i)
         == AssignResult(animals, counts, names)
    decreases |animals| - i, 0
  {
    assert forall k :: 0 <= k < i + 1 ==> |animals[k].species| >= 2;
    AssignFromSpec(animals, counts, names, i + 1);
    AssignFromStep(animals, counts, names, i);
  }

  /** With every animal stamped and counted, the loop is over and it did not throw. */
  lemma AssignFromEnd(animals: seq<AnimalRecord>, counts: map<string, int>, names: map<string, string>)
    requires forall k :: 0 <= k < |animals| ==> |animals[k].species| >= 2
    ensures var n := |animals|;
      AssignFrom(AssignedUpTo(animals, counts, names, n), Tally(counts, SpeciesOf(animals)[..n]), names, n)
        == AssignResult(animals, counts, names)
  {
    assert SpeciesOf(animals)[..|animals|] == SpeciesOf(animals);
  }

  /** The loop as a whole comes to AssignResult. */
  lemma AssignAllSpec(animals: seq<AnimalRecord>, counts: map<string, int>, names: map<string, string>)
    ensures AssignAll(animals, counts, names) == AssignResult(animals, counts, names)
  {
    assert SpeciesOf(animals)[..0] == [];
    AssignFromSpec(animals, counts, names, 0);
  }

  /** The first short species is at i when the animals before it have longer ones. */
  lemma FirstShortSpeciesIs(animals: seq<AnimalRecord>, i: nat)
    requires i < |animals| && |animals[i].species| < 2
    requires forall k :: 0 <= k < i ==> |animals[k].species| >= 2
    ensures FirstShortSpecies(animals) == Some(i)
  {
  }

  /**
   * With the counter starting empty, as it does in a new Zoo, the k-th animal of a species gets the
   * identifier and name ending in k, and every animal keeps its other fields.
   */
  lemma AssignedNumbering(animals: seq<AnimalRecord>, names: map<string, string>, i: nat)
    requires i < |animals|
    ensures var r, k := Assigned(animals, map[], names), Rank(SpeciesOf(animals), i);
      && 1 <= k <= multiset(SpeciesOf(animals))[animals[i].species]
      && r[i].uniqueID == GenUniqueID(animals[i].species, k)
      && r[i].name == Some(DisplayName(names, animals[i].species, k))
      && r[i].(uniqueID := animals[i].uniqueID, name := animals[i].name) == animals[i]
  {
    var cs := Numbering(map[], SpeciesOf(animals));
    RankBounds(SpeciesOf(animals), i);
    assert cs[i] == Rank(SpeciesOf(animals), i);
    AssignedRank(animals, map[], names, i);
  }

  /**
   * Within one species no two animals share an identifier or a name, provided the counter held no
   * negative count for it beforehand.
   */
  lemma UniqueWithinSpecies(animals: seq<AnimalRecord>, counts: map<string, int>, names: map<string, string>,
                            i: nat, j: nat)
    requires i < j < |animals| && animals[i].species == animals[j].species && |animals[i].species| >= 2
    requires CountOf(counts, animals[i].species) >= 0
    ensures var r := Assigned(animals, counts, names);
      r[i].uniqueID != r[j].uniqueID && r[i].name != r[j].name
  {
    var xs := SpeciesOf(animals);
    var cs := Numbering(counts, xs);
    var s := animals[i].species;
    RankIncreases(xs, i, j);
    RankBounds(xs, i);
    assert 0 <= cs[i] < cs[j];
    AssignedRank(animals, counts, names, i);
    AssignedRank(animals, counts, names, j);
    var r := Assigned(animals, counts, names);
    if r[i].uniqueID == r[j].uniqueID {
      IdentifierDeterminesCount(s, cs[i], cs[j]);
    }
    if r[i].name == r[j].name {
      NameDeterminesCount(names, s, cs[i], cs[j]);
    }
  }

  /** With an empty counter, every number from 1 to the size of a species is given to one of its animals. */
  lemma NumbersAreDense(animals: seq<AnimalRecord>, names: map<string, string>, s: string, k: nat)
    requires 1 <= k <= multiset(SpeciesOf(animals))[s]
    ensures exists i :: (0 <= i < |animals| && animals[i].species == s
      && Assigned(animals, map[], names)[i].uniqueID == GenUniqueID(s, k))
  {
    var xs := SpeciesOf(animals);
    EveryRankTaken(xs, s, k);
    var i :| 0 <= i < |xs| && xs[i] == s && Rank(xs, i) == k;
    AssignedAt(animals, map[], names, |animals|, i);
    TallyCounts(map[], xs[..i + 1], s);
    assert Assigned(animals, map[], names)[i].uniqueID == GenUniqueID(s, k);
  }
}
