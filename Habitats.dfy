/**
 * What Zoo.organizeAndWriteToFile computes: the animals grouped by the label
 * capitalize(species) + " Habitat", and the report lines written for the groups, each group as its
 * label line, one bullet line per member and an empty line.
 */
module Habitats {
  import opened Wrappers
  import opened JavaLang
  import opened Animals

  /** Zoo.capitalize: the first character upper-cased and the rest unchanged; the empty string is returned as it is. */
  function Capitalize(s: string): (r: string)
    ensures |r| == |s|
  {
    if s == [] then s else Upper(s[..1]) + s[1..]
  }

  /** Capitalizing changes the first character only, and only its case. */
  lemma CapitalizeSpec(s: string)
    requires s != []
    ensures Capitalize(s)[0] == UpperChar(s[0]) && Capitalize(s)[1..] == s[1..]
  {
    assert (Upper(s[..1]) + s[1..])[1..] == s[1..];
  }

  /** The key an animal is grouped under. */
  function HabitatLabel(species: string): string {
    Capitalize(species) + " Habitat"
  }

  /**
   * Two species share a habitat exactly when both are empty, or they agree after their first
   * character and their first characters agree once upper-cased ("lion" and "Lion", but not "LION").
   */
  lemma SameHabitat(s: string, t: string)
    ensures HabitatLabel(s) == HabitatLabel(t) <==>
      (s == [] && t == []) || (s != [] && t != [] && UpperChar(s[0]) == UpperChar(t[0]) && s[1..] == t[1..])
  {
    var cs, ct := Capitalize(s), Capitalize(t);
    if HabitatLabel(s) == HabitatLabel(t) {
      assert |cs| == |ct|;
      assert cs == HabitatLabel(s)[..|cs|];
      assert ct == HabitatLabel(t)[..|ct|];
    }
    if s != [] && t != [] {
      CapitalizeSpec(s);
      CapitalizeSpec(t);
      if UpperChar(s[0]) == UpperChar(t[0]) && s[1..] == t[1..] {
        assert cs == cs[..1] + cs[1..];
        assert ct == ct[..1] + ct[1..];
        assert cs[..1] == ct[..1];
      } else if cs == ct {
        assert cs[0] == ct[0];
      }
    }
  }

  /** The classifier organizeAndWriteToFile groups the animals with. */
  function HabitatOf(a: AnimalRecord): string {
    HabitatLabel(a.species)
  }

  // ---------------------------------------------------------------------------------------------
  // Grouping: Collectors.groupingBy with a classifier

  /** A key of the grouping and the elements classified under it, in list order. */
  datatype Group<K, T> = Group(key: K, members: seq<T>)

  /** The index of the group with the key, if any. */
  function IndexOfKey<K(==), T>(gs: seq<Group<K, T>>, key: K): (r: Option<nat>)
    ensures r.Some? ==> r.value < |gs| && gs[r.value].key == key
    ensures r.None? ==> forall i :: 0 <= i < |gs| ==> gs[i].key != key
  {
    if gs == [] then None
    else if gs[0].key == key then Some(0)
    else
      match IndexOfKey(gs[1..], key)
      case None => None
      case Some(i) => Some(i + 1)
  }

  /** The groups after one more element: appended to its group, or a new group is opened for it. */
  function AddToGroups<K(==), T>(gs: seq<Group<K, T>>, x: T, classify: T -> K): seq<Group<K, T>> {
    match IndexOfKey(gs, classify(x))
    case None => gs + [Group(classify(x), [x])]
    case Some(i) => gs[i := gs[i].(members := gs[i].members + [x])]
  }

  /** The elements grouped by their keys; groups appear in the order their first element does. */
  function GroupBy<K(==), T>(xs: seq<T>, classify: T -> K): seq<Group<K, T>>
    decreases |xs|
  {
    if xs == [] then []
    else AddToGroups(GroupBy(xs[..|xs| - 1], classify), xs[|xs| - 1], classify)
  }

  /** The elements with the key, in list order. */
  function Members<K(==), T>(xs: seq<T>, key: K, classify: T -> K): (ms: seq<T>)
    ensures |ms| <= |xs|
    decreases |xs|
  {
    if xs == [] then []
    else
      var init, x := xs[..|xs| - 1], xs[|xs| - 1];
      Members(init, key, classify) + (if classify(x) == key then [x] else [])
  }

  /** A key no element has has no members. */
  lemma {:induction false} MembersNone<K, T>(xs: seq<T>, key: K, classify: T -> K)
    requires forall k :: 0 <= k < |xs| ==> classify(xs[k]) != key
    ensures Members(xs, key, classify) == []
    decreases |xs|
  {
    if xs != [] {
      MembersNone(xs[..|xs| - 1], key, classify);
    }
  }

  /** An element is among the members of its own key. */
  lemma {:induction false} MembersHas<K, T>(xs: seq<T>, k: nat, classify: T -> K)
    requires k < |xs|
    ensures xs[k] in Members(xs, classify(xs[k]), classify)
    decreases |xs|
  {
    var last := |xs| - 1;
    var init := xs[..last];
    if k < last {
      MembersHas(init, k, classify);
      assert init[k] == xs[k];
    }
  }

  /** No two groups share a key. */
  ghost predicate KeysDistinct<K, T>(gs: seq<Group<K, T>>) {
    forall i, j :: 0 <= i < j < |gs| ==> gs[i].key != gs[j].key
  }

  /** Every group is non-empty and holds exactly the elements with its key, in list order. */
  ghost predicate GroupsExact<K, T>(xs: seq<T>, classify: T -> K, gs: seq<Group<K, T>>) {
    forall i :: 0 <= i < |gs| ==> gs[i].members != [] && gs[i].members == Members(xs, gs[i].key, classify)
  }

  /** The groups partition the elements: what Collectors.groupingBy promises of its map. */
  ghost predicate Partitions<K, T>(xs: seq<T>, classify: T -> K, gs: seq<Group<K, T>>) {
    && KeysDistinct(gs)
    && GroupsExact(xs, classify, gs)
    && (forall k :: 0 <= k < |xs| ==> IndexOfKey(gs, classify(xs[k])).Some?)
  }

  /**
   * The grouping is correct: one group per key, each holding exactly the elements with that key in
   * list order, none empty, and every element in one.
   */
  lemma GroupingCorrect<K, T>(xs: seq<T>, classify: T -> K)
    ensures Partitions(xs, classify, GroupBy(xs, classify))
  {
    GroupKeysDistinct(xs, classify);
    GroupsCover(xs, classify);
    GroupMembers(xs, classify);
  }

  lemma {:induction false} GroupKeysDistinct<K, T>(xs: seq<T>, classify: T -> K)
    ensures KeysDistinct(GroupBy(xs, classify))
    decreases |xs|
  {
    if xs != [] {
      var init, x := xs[..|xs| - 1], xs[|xs| - 1];
      GroupKeysDistinct(init, classify);
      var gs0 := GroupBy(init, classify);
      var gs := AddToGroups(gs0, x, classify);
      assert gs == GroupBy(xs, classify);
      assert forall j :: 0 <= j < |gs0| ==> gs[j].key == gs0[j].key;
      var found := IndexOfKey(gs0, classify(x));
      forall i, j | 0 <= i < j < |gs|
        ensures gs[i].key != gs[j].key
      {
        if j == |gs0| {
          assert found.None? && gs[j].key == classify(x);
          assert gs[i].key == gs0[i].key;
          assert gs0[i].key != classify(x);
        } else {
          assert j < |gs0|;
          assert gs[i].key == gs0[i].key;
          assert gs[j].key == gs0[j].key;
          assert gs0[i].key != gs0[j].key;
        }
      }
    }
  }

  lemma {:induction false} GroupsCover<K, T>(xs: seq<T>, classify: T -> K)
    ensures forall k :: 0 <= k < |xs| ==> IndexOfKey(GroupBy(xs, classify), classify(xs[k])).Some?
    decreases |xs|
  {
    if xs != [] {
      var last := |xs| - 1;
      var init, x := xs[..last], xs[last];
      GroupsCover(init, classify);
      var gs0 := GroupBy(init, classify);
      var gs := AddToGroups(gs0, x, classify);
      assert forall j :: 0 <= j < |gs0| ==> gs[j].key == gs0[j].key;
      forall k | 0 <= k < |xs|
        ensures IndexOfKey(gs, classify(xs[k])).Some?
      {
        if k < last {
          assert init[k] == xs[k];
          var j := IndexOfKey(gs0, classify(xs[k])).value;
          assert gs[j].key == classify(xs[k]);
        } else {
          var j := if IndexOfKey(gs0, classify(x)).Some? then IndexOfKey(gs0, classify(x)).value else |gs0|;
          assert gs[j].key == classify(xs[k]);
        }
      }
    }
  }

  lemma {:induction false} GroupMembers<K, T>(xs: seq<T>, classify: T -> K)
    ensures GroupsExact(xs, classify, GroupBy(xs, classify))
    decreases |xs|
  {
    if xs != [] {
      var last := |xs| - 1;
      var init, x := xs[..last], xs[last];
      GroupMembers(init, classify);
      GroupKeysDistinct(init, classify);
      var gs0 := GroupBy(init, classify);
      var gs := AddToGroups(gs0, x, classify);
      assert gs == GroupBy(xs, classify);
      forall key
        ensures Members(xs, key, classify) == Members(init, key, classify) + (if classify(x) == key then [x] else [])
      {
      }
      match IndexOfKey(gs0, classify(x))
      case None =>
        GroupsCover(init, classify);
        assert forall k :: 0 <= k < last ==> init[k] == xs[k];
        MembersNone(init, classify(x), classify);
        assert forall i :: 0 <= i < |gs0| ==> gs[i] == gs0[i];
        assert gs[|gs0|] == Group(classify(x), [x]);
      case Some(i) =>
        forall j | 0 <= j < |gs|
          ensures gs[j].members != [] && gs[j].members == Members(xs, gs[j].key, classify)
        {
          if j != i {
            assert gs[j] == gs0[j];
          } else {
            assert gs[j].members == gs0[i].members + [x];
          }
        }
    }
  }

  /** All members of all groups, group after group. */
  function Flatten<K, T>(gs: seq<Group<K, T>>): seq<T>
    decreases |gs|
  {
    if gs == [] then [] else Flatten(gs[..|gs| - 1]) + gs[|gs| - 1].members
  }

  /** Adding a member to one group adds it to the flattened members. */
  lemma {:induction false} FlattenUpdate<K, T>(gs: seq<Group<K, T>>, i: nat, x: T)
    requires i < |gs|
    ensures multiset(Flatten(gs[i := gs[i].(members := gs[i].members + [x])]))
         == multiset(Flatten(gs)) + multiset{x}
    decreases |gs|
  {
    var g := gs[i].(members := gs[i].members + [x]);
    var gs' := gs[i := g];
    var last := |gs| - 1;
    assert Flatten(gs) == Flatten(gs[..last]) + gs[last].members;
    assert Flatten(gs') == Flatten(gs'[..last]) + gs'[last].members;
    if i == last {
      assert gs'[..last] == gs[..last];
      assert multiset(gs'[last].members) == multiset(gs[last].members) + multiset{x};
    } else {
      assert gs'[..last] == gs[..last][i := g];
      assert gs'[last] == gs[last];
      FlattenUpdate(gs[..last], i, x);
    }
  }

  /** Grouping loses no element and duplicates none: the members are a permutation of the elements. */
  lemma {:induction false} GroupingPermutes<K, T>(xs: seq<T>, classify: T -> K)
    ensures multiset(Flatten(GroupBy(xs, classify))) == multiset(xs)
    decreases |xs|
  {
    if xs != [] {
      var last := |xs| - 1;
      var init, x := xs[..last], xs[last];
      var gs0 := GroupBy(init, classify);
      GroupingPermutes(init, classify);
      assert xs == init + [x];
      match IndexOfKey(gs0, classify(x))
      case None =>
        var gs := gs0 + [Group(classify(x), [x])];
        assert gs[..|gs| - 1] == gs0;
      case Some(i) =>
        FlattenUpdate(gs0, i, x);
    }
  }

  // ---------------------------------------------------------------------------------------------
  // The report

  /** The line of each member, in order. */
  function MemberLines<T>(ms: seq<T>, line: T -> string): (lines: seq<string>)
    ensures |lines| == |ms| && forall k :: 0 <= k < |ms| ==> lines[k] == line(ms[k])
  {
    seq(|ms|, k requires 0 <= k < |ms| => line(ms[k]))
  }

  /** The lines written for one group: its key and a colon, a line per member, an empty line. */
  function GroupLines<T>(g: Group<string, T>, line: T -> string): (lines: seq<string>)
    ensures |lines| == |g.members| + 2
    ensures lines[0] == g.key + ":" && lines[|lines| - 1] == []
    ensures forall k :: 0 <= k < |g.members| ==> lines[k + 1] == line(g.members[k])
  {
    [g.key + ":"] + seq(|g.members|, k requires 0 <= k < |g.members| => line(g.members[k])) + [""]
  }

  /** A group's lines are its key line, its members' lines and an empty line. */
  lemma GroupLinesAre<T>(g: Group<string, T>, line: T -> string)
    ensures GroupLines(g, line) == [g.key + ":"] + MemberLines(g.members, line) + [""]
  {
    var b, ls := GroupLines(g, line), MemberLines(g.members, line);
    assert |b| == |ls| + 2;
    forall t | 0 <= t < |ls|
      ensures b[t + 1] == ls[t]
    {
    }
  }

  /** The lines of the report, group after group. */
  function ReportLines<T>(gs: seq<Group<string, T>>, line: T -> string): seq<string>
    decreases |gs|
  {
    if gs == [] then [] else ReportLines(gs[..|gs| - 1], line) + GroupLines(gs[|gs| - 1], line)
  }

  /**
   * The writing loop of organizeAndWriteToFile: for each group its key and a colon, a line per
   * member and an empty line, each printed after the lines before it.
   */
  method WriteGroups<T>(gs: seq<Group<string, T>>, line: T -> string) returns (lines: seq<string>)
    ensures lines == ReportLines(gs, line)
  {
    lines := [];
    var g := 0;
    while g < |gs|
      invariant 0 <= g <= |gs|
      invariant lines == ReportLines(gs[..g], line)
    {
      var key, members := gs[g].key, gs[g].members;
      var start := |lines|;
      lines := lines + [key + ":"];
      var m := 0;
      while m < |members|
        invariant 0 <= m <= |members|
        invariant |lines| == start + 1 + m
        invariant lines[..start] == ReportLines(gs[..g], line) && lines[start] == key + ":"
        invariant forall k :: 0 <= k < m ==> lines[start + 1 + k] == line(members[k])
      {
        lines := lines + [line(members[m])];
        m := m + 1;
      }
      lines := lines + [""];
      assert gs[..g + 1][..g] == gs[..g];
      assert lines == ReportLines(gs[..g], line) + GroupLines(gs[g], line);
      g := g + 1;
    }
    assert gs[..g] == gs;
  }

  /** The report has a line per member plus a key line and an empty line per group. */
  lemma {:induction false} ReportLength<T>(gs: seq<Group<string, T>>, line: T -> string)
    ensures |ReportLines(gs, line)| == |Flatten(gs)| + 2 * |gs|
    decreases |gs|
  {
    if gs != [] {
      ReportLength(gs[..|gs| - 1], line);
    }
  }

  /** Every line of a group's block is in the report. */
  lemma {:induction false} ReportHasGroup<T>(gs: seq<Group<string, T>>, i: nat, line: T -> string)
    requires i < |gs|
    ensures forall l :: l in GroupLines(gs[i], line) ==> l in ReportLines(gs, line)
    decreases |gs|
  {
    var last := |gs| - 1;
    if i < last {
      ReportHasGroup(gs[..last], i, line);
    }
  }

  /** The lines of the group at i stand together in the report, after the lines of the groups before it. */
  lemma {:induction false} BlockAt<T>(gs: seq<Group<string, T>>, i: nat, line: T -> string)
    requires i < |gs|
    ensures var o, b := |ReportLines(gs[..i], line)|, GroupLines(gs[i], line);
      o + |b| <= |ReportLines(gs, line)| && ReportLines(gs, line)[o..o + |b|] == b
    decreases |gs|
  {
    var last := |gs| - 1;
    var b := GroupLines(gs[i], line);
    if i == last {
      assert gs[..i] == gs[..last];
    } else {
      var init := gs[..last];
      assert init[..i] == gs[..i] && init[i] == gs[i];
      BlockAt(init, i, line);
      var o := |ReportLines(gs[..i], line)|;
      var r := ReportLines(init, line);
      assert (r + GroupLines(gs[last], line))[o..o + |b|] == r[o..o + |b|];
    }
  }

  /**
   * The report of a grouping lists every element's line and the line of its key; the element is in
   * the group of its key, which holds exactly the elements with that key (BlockAt says where that
   * group's lines stand).
   */
  lemma EveryMemberListed<T>(xs: seq<T>, k: nat, classify: T -> string, line: T -> string)
    requires k < |xs|
    ensures classify(xs[k]) + ":" in ReportLines(GroupBy(xs, classify), line)
    ensures line(xs[k]) in ReportLines(GroupBy(xs, classify), line)
    ensures var gs, j := GroupBy(xs, classify), IndexOfKey(GroupBy(xs, classify), classify(xs[k]));
      && j.Some? && gs[j.value].members == Members(xs, classify(xs[k]), classify)
      && xs[k] in gs[j.value].members
  {
    var gs := GroupBy(xs, classify);
    GroupingCorrect(xs, classify);
    var i := IndexOfKey(gs, classify(xs[k])).value;
    MembersHas(xs, k, classify);
    var ms := gs[i].members;
    var m :| 0 <= m < |ms| && ms[m] == xs[k];
    var block := GroupLines(gs[i], line);
    assert block[m + 1] == line(xs[k]);
    assert block[0] == classify(xs[k]) + ":";
    ReportHasGroup(gs, i, line);
  }

  // ---------------------------------------------------------------------------------------------
  // The habitats of the zoo

  /** The line written for an animal: four blanks, a bullet, a blank and the animal's toString. */
  function Bullet(a: AnimalRecord, today: Date): string {
    "    \U{2022} " + Render(a, today)
  }

  /** The bullet lines of the animals, in order; none of them is empty. */
  function Bullets(animals: seq<AnimalRecord>, today: Date): (lines: seq<string>)
    ensures |lines| == |animals|
    ensures forall j :: 0 <= j < |animals| ==> lines[j] == Bullet(animals[j], today) && lines[j] != []
  {
    MemberLines(animals, BulletFor(today))
  }

  /** Bullet for the day the report is made. */
  function BulletFor(today: Date): AnimalRecord -> string {
    a => Bullet(a, today)
  }

  /** An animal's bullet is among the bullets of a list holding it. */
  lemma BulletListed(animals: seq<AnimalRecord>, a: AnimalRecord, today: Date)
    requires a in animals
    ensures Bullet(a, today) in Bullets(animals, today)
  {
    var m :| 0 <= m < |animals| && animals[m] == a;
    assert Bullets(animals, today)[m] == Bullet(a, today);
  }

  /** The habitats of the animals. */
  function GroupByHabitat(animals: seq<AnimalRecord>): seq<Group<string, AnimalRecord>> {
    GroupBy(animals, HabitatOf)
  }

  /** The lines organizeAndWriteToFile writes for the animals. */
  function Report(animals: seq<AnimalRecord>, today: Date): seq<string> {
    ReportLines(GroupByHabitat(animals), BulletFor(today))
  }

  /** The line where the block of the habitat of the k-th animal starts. */
  function HabitatStart(animals: seq<AnimalRecord>, k: nat, today: Date): nat
    requires k < |animals|
  {
    var gs := GroupByHabitat(animals);
    match IndexOfKey(gs, HabitatOf(animals[k]))
    case None => 0
    case Some(i) => |ReportLines(gs[..i], BulletFor(today))|
  }

  /** The lines from o on are the header line, the entries and an empty line. */
  predicate BlockIn(lines: seq<string>, o: nat, header: string, entries: seq<string>) {
    o + |entries| + 2 <= |lines| && lines[o..o + |entries| + 2] == [header] + entries + [""]
  }

  /**
   * The report lists every animal under its habitat's label: from HabitatStart on stand the label
   * line, the bullet lines of the animals of that habitat in list order (none empty, one of them
   * this animal's), and an empty line.
   */
  lemma EveryAnimalListed(animals: seq<AnimalRecord>, k: nat, today: Date)
    requires k < |animals|
    ensures HabitatLabel(animals[k].species) + ":" in Report(animals, today)
    ensures Bullet(animals[k], today) in Report(animals, today)
    ensures var ms := Members(animals, HabitatOf(animals[k]), HabitatOf);
      && animals[k] in ms
      && Bullet(animals[k], today) in Bullets(ms, today)
      && BlockIn(Report(animals, today), HabitatStart(animals, k, today),
                 HabitatLabel(animals[k].species) + ":", Bullets(ms, today))
  {
    var line := BulletFor(today);
    EveryMemberListed(animals, k, HabitatOf, line);
    assert line(animals[k]) == Bullet(animals[k], today);
    var gs := GroupBy(animals, HabitatOf);
    var i := IndexOfKey(gs, HabitatOf(animals[k])).value;
    HabitatBlock(gs, i, animals[k], today);
    assert HabitatStart(animals, k, today) == |ReportLines(gs[..i], line)|;
  }

  /** The block of the group at i is its label line, its animals' bullets and an empty line. */
  lemma HabitatBlock(gs: seq<Group<string, AnimalRecord>>, i: nat, a: AnimalRecord, today: Date)
    requires i < |gs| && a in gs[i].members
    ensures BlockIn(ReportLines(gs, BulletFor(today)), |ReportLines(gs[..i], BulletFor(today))|,
                    gs[i].key + ":", Bullets(gs[i].members, today))
    ensures Bullet(a, today) in Bullets(gs[i].members, today)
  {
    var line := BulletFor(today);
    var r, o := ReportLines(gs, line), |ReportLines(gs[..i], line)|;
    var b, bs := GroupLines(gs[i], line), Bullets(gs[i].members, today);
    assert bs == MemberLines(gs[i].members, line);
    GroupLinesAre(gs[i], line);
    BlockAt(gs, i, line);
    BlockFound(r, o, b, gs[i].key + ":", bs);
    BulletListed(gs[i].members, a, today);
  }

  /** A block found at o, written as its header, its entries and an empty line. */
  lemma BlockFound(lines: seq<string>, o: nat, b: seq<string>, header: string, entries: seq<string>)
    requires o + |b| <= |lines| && lines[o..o + |b|] == b && b == [header] + entries + [""]
    ensures BlockIn(lines, o, header, entries)
  {
  }

  /** The report has one line per animal, and a label line and an empty line per habitat. */
  lemma HabitatReportLength(animals: seq<AnimalRecord>, today: Date)
    ensures |Report(animals, today)| == |animals| + 2 * |GroupByHabitat(animals)|
  {
    ReportLength(GroupByHabitat(animals), BulletFor(today));
    GroupingPermutes(animals, HabitatOf);
    assert |multiset(Flatten(GroupByHabitat(animals)))| == |multiset(animals)|;
  }
}
