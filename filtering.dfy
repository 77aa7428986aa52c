/**
 * The filter chain of the player search: the eleven optional criteria, the
 * predicate each one tests, and what applying them one after another selects.
 */
module Filtering {
  import opened Wrappers
  import opened PlayerEntity
  import opened JavaStrings

  /** The eleven optional search arguments; `None` (null) means "no constraint". */
  datatype PlayerFilter = PlayerFilter(
    name: Option<string>,
    title: Option<string>,
    race: Option<Race>,
    profession: Option<Profession>,
    after: Option<int>,
    before: Option<int>,
    banned: Option<bool>,
    minExperience: Option<int>,
    maxExperience: Option<int>,
    minLevel: Option<int>,
    maxLevel: Option<int>)

  /** One step of the chain: a supplied argument together with the test it selects by. */
  datatype Criterion =
    | NameContains(name: string)
    | TitleContains(title: string)
    | RaceIs(race: Race)
    | ProfessionIs(profession: Profession)
    | ExperienceAtLeast(minExperience: int)
    | ExperienceAtMost(maxExperience: int)
    | LevelAtLeast(minLevel: int)
    | LevelAtMost(maxLevel: int)
    | BannedIs(banned: bool)
    | BornAfter(after: int)
    | BornBefore(before: int)

  /** The service's per-player tests (`hasName`, `hasTitle`, ..., `BirthdayBefore`). */
  predicate Holds(p: Record, c: Criterion) {
    match c
    case NameContains(n) => ContainsIgnoreCase(p.name, n)
    case TitleContains(t) => ContainsIgnoreCase(p.title, t)
    case RaceIs(r) => p.race == r
    case ProfessionIs(q) => p.profession == q
    case ExperienceAtLeast(m) => p.experience >= m
    case ExperienceAtMost(m) => p.experience <= m
    case LevelAtLeast(m) => p.level >= m
    case LevelAtMost(m) => p.level <= m
    case BannedIs(b) => p.banned == b
    case BornAfter(t) => p.birthday > t
    case BornBefore(t) => p.birthday < t
  }

  /** `p` passes every criterion of `cs`. */
  predicate HoldsAll(p: Record, cs: seq<Criterion>) {
    forall i :: 0 <= i < |cs| ==> Holds(p, cs[i])
  }

  /** `s.stream().filter(p -> HoldsAll(p, cs)).collect(toList())`: the passing players, in order. */
  function Select(s: seq<Record>, cs: seq<Criterion>): seq<Record>
    decreases |s|
  {
    if s == [] then []
    else Select(s[..|s| - 1], cs) + (if HoldsAll(s[|s| - 1], cs) then [s[|s| - 1]] else [])
  }

  /** The one-step chain `[c]` when the argument behind `c` is supplied, else no step. */
  function StepIf(supplied: bool, c: Criterion): seq<Criterion> {
    if supplied then [c] else []
  }

  /** The criteria the chain applies, one per supplied argument, in the order of the chain. */
  function Steps(f: PlayerFilter): seq<Criterion> {
    StepIf(f.name.Some?, NameContains(f.name.GetOr([])))
    + StepIf(f.title.Some?, TitleContains(f.title.GetOr([])))
    + StepIf(f.race.Some?, RaceIs(f.race.GetOr(Race([]))))
    + StepIf(f.profession.Some?, ProfessionIs(f.profession.GetOr(Profession([]))))
    + StepIf(f.minExperience.Some?, ExperienceAtLeast(f.minExperience.GetOr(0)))
    + StepIf(f.maxExperience.Some?, ExperienceAtMost(f.maxExperience.GetOr(0)))
    + StepIf(f.minLevel.Some?, LevelAtLeast(f.minLevel.GetOr(0)))
    + StepIf(f.maxLevel.Some?, LevelAtMost(f.maxLevel.GetOr(0)))
    + StepIf(f.banned.Some?, BannedIs(f.banned.GetOr(false)))
    + StepIf(f.after.Some?, BornAfter(f.after.GetOr(0)))
    + StepIf(f.before.Some?, BornBefore(f.before.GetOr(0)))
  }

  /**
   * The search as a conjunction over the arguments: every supplied argument
   * constrains, every null one does not. Name and title: the argument occurs in the
   * field, each character compared ignoring case; race, profession, banned: equality;
   * experience and level bounds: inclusive; birthday bounds: strict.
   */
  ghost predicate Matches(p: Record, f: PlayerFilter) {
    && (f.name.None? || exists i :: MatchAt(p.name, f.name.value, i))
    && (f.title.None? || exists i :: MatchAt(p.title, f.title.value, i))
    && (f.race.None? || p.race == f.race.value)
    && (f.profession.None? || p.profession == f.profession.value)
    && (f.after.None? || f.after.value < p.birthday)
    && (f.before.None? || p.birthday < f.before.value)
    && (f.banned.None? || p.banned == f.banned.value)
    && (f.minExperience.None? || f.minExperience.value <= p.experience)
    && (f.maxExperience.None? || p.experience <= f.maxExperience.value)
    && (f.minLevel.None? || f.minLevel.value <= p.level)
    && (f.maxLevel.None? || p.level <= f.maxLevel.value)
  }

  lemma HoldsAllAppend(p: Record, a: seq<Criterion>, b: seq<Criterion>)
    ensures HoldsAll(p, a + b) <==> HoldsAll(p, a) && HoldsAll(p, b)
  {
    if HoldsAll(p, a) && HoldsAll(p, b) {
      forall i | 0 <= i < |a + b| ensures Holds(p, (a + b)[i]) {
        if i >= |a| { assert (a + b)[i] == b[i - |a|]; }
      }
    }
    if HoldsAll(p, a + b) {
      forall i | 0 <= i < |a| ensures Holds(p, a[i]) {
        assert (a + b)[i] == a[i];
      }
      forall i | 0 <= i < |b| ensures Holds(p, b[i]) {
        assert (a + b)[|a| + i] == b[i];
      }
    }
  }

  /** An argument admits `p` when it is null or `p` passes its test. */
  predicate Admits(p: Record, supplied: bool, c: Criterion) {
    !supplied || Holds(p, c)
  }

  /** `p` is admitted by each of the eleven arguments, taken in the order of the chain. */
  predicate Passes(p: Record, f: PlayerFilter) {
    && Admits(p, f.name.Some?, NameContains(f.name.GetOr([])))
    && Admits(p, f.title.Some?, TitleContains(f.title.GetOr([])))
    && Admits(p, f.race.Some?, RaceIs(f.race.GetOr(Race([]))))
    && Admits(p, f.profession.Some?, ProfessionIs(f.profession.GetOr(Profession([]))))
    && Admits(p, f.minExperience.Some?, ExperienceAtLeast(f.minExperience.GetOr(0)))
    && Admits(p, f.maxExperience.Some?, ExperienceAtMost(f.maxExperience.GetOr(0)))
    && Admits(p, f.minLevel.Some?, LevelAtLeast(f.minLevel.GetOr(0)))
    && Admits(p, f.maxLevel.Some?, LevelAtMost(f.maxLevel.GetOr(0)))
    && Admits(p, f.banned.Some?, BannedIs(f.banned.GetOr(false)))
    && Admits(p, f.after.Some?, BornAfter(f.after.GetOr(0)))
    && Admits(p, f.before.Some?, BornBefore(f.before.GetOr(0)))
  }

  /** Appending an optional step adds its test when, and only when, it is supplied. */
  lemma HoldsAllStepIf(p: Record, pre: seq<Criterion>, supplied: bool, c: Criterion)
    ensures HoldsAll(p, pre + StepIf(supplied, c)) <==> HoldsAll(p, pre) && Admits(p, supplied, c)
  {
    HoldsAllAppend(p, pre, StepIf(supplied, c));
    if supplied {
      assert StepIf(supplied, c)[0] == c;
    }
  }

  /** Passing the chain's criteria is being admitted by every argument. */
  lemma StepsHold(p: Record, f: PlayerFilter)
    ensures HoldsAll(p, Steps(f)) <==> Passes(p, f)
  {
    var s1 := StepIf(f.name.Some?, NameContains(f.name.GetOr([])));
    HoldsAllStepIf(p, [], f.name.Some?, NameContains(f.name.GetOr([])));
    assert [] + s1 == s1;
    var s2 := s1 + StepIf(f.title.Some?, TitleContains(f.title.GetOr([])));
    HoldsAllStepIf(p, s1, f.title.Some?, TitleContains(f.title.GetOr([])));
    var s3 := s2 + StepIf(f.race.Some?, RaceIs(f.race.GetOr(Race([]))));
    HoldsAllStepIf(p, s2, f.race.Some?, RaceIs(f.race.GetOr(Race([]))));
    var s4 := s3 + StepIf(f.profession.Some?, ProfessionIs(f.profession.GetOr(Profession([]))));
    HoldsAllStepIf(p, s3, f.profession.Some?, ProfessionIs(f.profession.GetOr(Profession([]))));
    var s5 := s4 + StepIf(f.minExperience.Some?, ExperienceAtLeast(f.minExperience.GetOr(0)));
    HoldsAllStepIf(p, s4, f.minExperience.Some?, ExperienceAtLeast(f.minExperience.GetOr(0)));
    var s6 := s5 + StepIf(f.maxExperience.Some?, ExperienceAtMost(f.maxExperience.GetOr(0)));
    HoldsAllStepIf(p, s5, f.maxExperience.Some?, ExperienceAtMost(f.maxExperience.GetOr(0)));
    var s7 := s6 + StepIf(f.minLevel.Some?, LevelAtLeast(f.minLevel.GetOr(0)));
    HoldsAllStepIf(p, s6, f.minLevel.Some?, LevelAtLeast(f.minLevel.GetOr(0)));
    var s8 := s7 + StepIf(f.maxLevel.Some?, LevelAtMost(f.maxLevel.GetOr(0)));
    HoldsAllStepIf(p, s7, f.maxLevel.Some?, LevelAtMost(f.maxLevel.GetOr(0)));
    var s9 := s8 + StepIf(f.banned.Some?, BannedIs(f.banned.GetOr(false)));
    HoldsAllStepIf(p, s8, f.banned.Some?, BannedIs(f.banned.GetOr(false)));
    var s10 := s9 + StepIf(f.after.Some?, BornAfter(f.after.GetOr(0)));
    HoldsAllStepIf(p, s9, f.after.Some?, BornAfter(f.after.GetOr(0)));
    var s11 := s10 + StepIf(f.before.Some?, BornBefore(f.before.GetOr(0)));
    HoldsAllStepIf(p, s10, f.before.Some?, BornBefore(f.before.GetOr(0)));
  }

  /** Being admitted by every argument is matching the search's conjunction. */
  lemma PassesMatch(p: Record, f: PlayerFilter)
    ensures Passes(p, f) <==> Matches(p, f)
  {
    if f.name.Some? { ContainsIgnoreCaseIff(p.name, f.name.value); }
    if f.title.Some? { ContainsIgnoreCaseIff(p.title, f.title.value); }
  }

  /** Passing the chain's criteria is the same as matching the search's conjunction. */
  lemma StepsMatch(p: Record, f: PlayerFilter)
    ensures HoldsAll(p, Steps(f)) <==> Matches(p, f)
  {
    StepsHold(p, f);
    PassesMatch(p, f);
  }

  /** A player is selected exactly when it is in the input and passes every criterion. */
  lemma {:induction false} SelectMembers(s: seq<Record>, cs: seq<Criterion>, x: Record)
    ensures x in Select(s, cs) <==> x in s && HoldsAll(x, cs)
    decreases |s|
  {
    if s != [] {
      var init := s[..|s| - 1];
      SelectMembers(init, cs, x);
      assert s == init + [s[|s| - 1]];
    }
  }

  /** Before any link of the chain, nothing is filtered out. */
  lemma {:induction false} SelectNothing(s: seq<Record>)
    ensures Select(s, []) == s
    decreases |s|
  {
    if s != [] {
      SelectNothing(s[..|s| - 1]);
      assert s == s[..|s| - 1] + [s[|s| - 1]];
    }
  }

  /** One more link of the chain: filtering the selection by `c` selects by `cs + [c]`. */
  lemma {:induction false} SelectThen(s: seq<Record>, cs: seq<Criterion>, c: Criterion)
    ensures Select(Select(s, cs), [c]) == Select(s, cs + [c])
    decreases |s|
  {
    if s != [] {
      var init := s[..|s| - 1];
      var last := s[|s| - 1];
      SelectThen(init, cs, c);
      HoldsAllAppend(last, cs, [c]);
      var mid := Select(s, cs);
      if HoldsAll(last, cs) {
        assert mid == Select(init, cs) + [last];
        assert mid[..|mid| - 1] == Select(init, cs) && mid[|mid| - 1] == last;
      } else {
        assert mid == Select(init, cs);
      }
    }
  }

  /** No two players of `s` share an id. */
  ghost predicate DistinctIds(s: seq<Record>) {
    forall i, j :: 0 <= i < j < |s| ==> s[i].id != s[j].id
  }

  /** `s` enumerates the stored `rows`: every stored player exactly once, in some order. */
  ghost predicate IsListing(s: seq<Record>, rows: map<int, Record>) {
    && DistinctIds(s)
    && (forall i :: 0 <= i < |s| ==> s[i].id in rows && rows[s[i].id] == s[i])
    && (forall k :: k in rows ==> exists i :: 0 <= i < |s| && s[i].id == k)
  }

  /** The ids of the stored players that pass every criterion of `cs`. */
  ghost function MatchingIds(rows: map<int, Record>, cs: seq<Criterion>): set<int> {
    set k | k in rows && HoldsAll(rows[k], cs)
  }

  /** The ids of the players of `s` that pass every criterion of `cs`. */
  ghost function SelectedIds(s: seq<Record>, cs: seq<Criterion>): set<int> {
    set i | 0 <= i < |s| && HoldsAll(s[i], cs) :: s[i].id
  }

  /** The selected ids of `s` are those of its front part plus, if it passes, the last one's. */
  lemma SelectedIdsSnoc(s: seq<Record>, cs: seq<Criterion>)
    requires s != []
    ensures SelectedIds(s, cs)
         == SelectedIds(s[..|s| - 1], cs) + (if HoldsAll(s[|s| - 1], cs) then {s[|s| - 1].id} else {})
  {
    var init := s[..|s| - 1];
    forall k | k in SelectedIds(s, cs)
      ensures k in SelectedIds(init, cs) + (if HoldsAll(s[|s| - 1], cs) then {s[|s| - 1].id} else {})
    {
      var i :| 0 <= i < |s| && HoldsAll(s[i], cs) && s[i].id == k;
      if i < |s| - 1 { assert init[i] == s[i]; }
    }
    forall k | k in SelectedIds(init, cs) ensures k in SelectedIds(s, cs) {
      var i :| 0 <= i < |init| && HoldsAll(init[i], cs) && init[i].id == k;
      assert s[i] == init[i];
    }
  }

  /** Without repeated ids, the selection has one element per selected id. */
  lemma {:induction false} SelectCount(s: seq<Record>, cs: seq<Criterion>)
    requires DistinctIds(s)
    ensures |Select(s, cs)| == |SelectedIds(s, cs)|
    decreases |s|
  {
    if s == [] {
      assert SelectedIds(s, cs) == {};
    } else {
      var init := s[..|s| - 1];
      var last := s[|s| - 1];
      assert DistinctIds(init);
      SelectCount(init, cs);
      SelectedIdsSnoc(s, cs);
      assert last.id !in SelectedIds(init, cs) by {
        forall i | 0 <= i < |init| ensures init[i].id != last.id {
          assert init[i] == s[i];
        }
      }
    }
  }

  /**
   * Whatever order the enumeration has, the number of players the chain selects
   * is the number of stored players that pass every criterion.
   */
  lemma ListingCount(s: seq<Record>, rows: map<int, Record>, cs: seq<Criterion>)
    requires IsListing(s, rows)
    ensures |Select(s, cs)| == |MatchingIds(rows, cs)|
  {
    SelectCount(s, cs);
    forall k | k in MatchingIds(rows, cs) ensures k in SelectedIds(s, cs) {
      var i :| 0 <= i < |s| && s[i].id == k;
      assert HoldsAll(s[i], cs);
    }
    assert SelectedIds(s, cs) == MatchingIds(rows, cs);
  }

  /** The criteria of the chain, built up link by link from no criterion at all. */
  lemma StepsFromNothing(f: PlayerFilter)
    ensures Steps(f) == []
      + StepIf(f.name.Some?, NameContains(f.name.GetOr([])))
      + StepIf(f.title.Some?, TitleContains(f.title.GetOr([])))
      + StepIf(f.race.Some?, RaceIs(f.race.GetOr(Race([]))))
      + StepIf(f.profession.Some?, ProfessionIs(f.profession.GetOr(Profession([]))))
      + StepIf(f.minExperience.Some?, ExperienceAtLeast(f.minExperience.GetOr(0)))
      + StepIf(f.maxExperience.Some?, ExperienceAtMost(f.maxExperience.GetOr(0)))
      + StepIf(f.minLevel.Some?, LevelAtLeast(f.minLevel.GetOr(0)))
      + StepIf(f.maxLevel.Some?, LevelAtMost(f.maxLevel.GetOr(0)))
      + StepIf(f.banned.Some?, BannedIs(f.banned.GetOr(false)))
      + StepIf(f.after.Some?, BornAfter(f.after.GetOr(0)))
      + StepIf(f.before.Some?, BornBefore(f.before.GetOr(0)))
  {
    var first := StepIf(f.name.Some?, NameContains(f.name.GetOr([])));
    assert [] + first == first;
  }

  /** The chain keeps exactly the players of the list that match the search. */
  lemma SearchMembers(s: seq<Record>, f: PlayerFilter)
    ensures forall x :: x in Select(s, Steps(f)) <==> x in s && Matches(x, f)
  {
    forall x ensures x in Select(s, Steps(f)) <==> x in s && Matches(x, f) {
      SelectMembers(s, Steps(f), x);
      StepsMatch(x, f);
    }
  }
}
