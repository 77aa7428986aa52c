/**
 * The player service: search with filter, order and page window, count, lookup,
 * create, partial update and delete, over the player table.
 */
module Service {
  import opened Wrappers
  import opened PlayerEntity
  import opened Leveling
  import opened Filtering
  import opened Ordering
  import opened Paging
  import opened Repository

  const NameMaxLength := 12
  const TitleMaxLength := 30
  const MinYear := 2000
  const MaxYear := 3000

  /** `isNameInvalid`: null, longer than 12 characters, or empty. */
  predicate IsNameInvalid(name: Option<string>) {
    name.None? || |name.value| > NameMaxLength || name.value == []
  }

  /** `isTitleInvalid`: null or longer than 30 characters. */
  predicate IsTitleInvalid(title: Option<string>) {
    title.None? || |title.value| > TitleMaxLength
  }

  /** The birthday check: its calendar year lies outside `[2000, 3000]`. */
  predicate IsYearInvalid(year: int) {
    year < MinYear || year > MaxYear
  }

  /** The experience check: outside `[0, 10000000]`. */
  predicate IsExperienceInvalid(experience: int) {
    experience > MaxExperience || experience < 0
  }

  /**
   * A stored player whose checked fields are in range and whose derived fields
   * follow its experience. Nothing in the entity enforces this; create and update
   * establish it.
   */
  ghost predicate ConsistentRecord(r: Record, yearOf: int -> int) {
    && !IsExperienceInvalid(r.experience)
    && !IsYearInvalid(yearOf(r.birthday))
    && r.level == LevelOf(r.experience)
    && r.untilNextLevel == UntilNextLevelOf(r.experience)
  }

  /** Every row of a table is consistent. */
  ghost predicate AllConsistent(rows: map<int, Record>, yearOf: int -> int) {
    forall k :: k in rows ==> ConsistentRecord(rows[k], yearOf)
  }

  /** Storing a consistent row keeps a consistent table consistent. */
  lemma StoreConsistent(rows: map<int, Record>, k: int, r: Record, yearOf: int -> int)
    requires AllConsistent(rows, yearOf) && ConsistentRecord(r, yearOf)
    ensures AllConsistent(rows[k := r], yearOf)
  {
  }

  /** The row a successful create stores under `id`: banned defaults to false, level and untilNextLevel are derived. */
  function NewRecord(id: int, name: string, title: string, race: Race, profession: Profession,
                     birthday: int, banned: Option<bool>, experience: int): Record
    requires 0 <= experience
  {
    Record(id, name, title, race, profession, birthday, banned.GetOr(false), experience,
           LevelOf(experience), UntilNextLevelOf(experience))
  }

  /**
   * The row a successful update stores: each supplied field replaced, each null one
   * kept; level and untilNextLevel recomputed only when experience is supplied.
   */
  function Updated(r: Record, name: Option<string>, title: Option<string>, race: Option<Race>,
                   profession: Option<Profession>, birthday: Option<int>, banned: Option<bool>,
                   experience: Option<int>): Record
    requires experience.Some? ==> 0 <= experience.value
  {
    var recompute := experience.Some?;
    var e := experience.GetOr(r.experience);
    r.(name := name.GetOr(r.name), title := title.GetOr(r.title),
       race := race.GetOr(r.race), profession := profession.GetOr(r.profession),
       birthday := birthday.GetOr(r.birthday), banned := banned.GetOr(r.banned),
       experience := e,
       level := if recompute then LevelOf(e) else r.level,
       untilNextLevel := if recompute then UntilNextLevelOf(e) else r.untilNextLevel)
  }

  /** A partial update changes exactly the supplied fields (and the derived ones with experience), never the id. */
  lemma UpdatedOnlySupplied(r: Record, name: Option<string>, title: Option<string>, race: Option<Race>,
                            profession: Option<Profession>, birthday: Option<int>, banned: Option<bool>,
                            experience: Option<int>)
    requires experience.Some? ==> 0 <= experience.value
    ensures var u := Updated(r, name, title, race, profession, birthday, banned, experience);
      && u.id == r.id
      && (if name.Some? then u.name == name.value else u.name == r.name)
      && (if title.Some? then u.title == title.value else u.title == r.title)
      && (if race.Some? then u.race == race.value else u.race == r.race)
      && (if profession.Some? then u.profession == profession.value else u.profession == r.profession)
      && (if birthday.Some? then u.birthday == birthday.value else u.birthday == r.birthday)
      && (if banned.Some? then u.banned == banned.value else u.banned == r.banned)
      && (if experience.Some? then u.experience == experience.value else u.experience == r.experience)
      && (experience.None? ==> u.level == r.level && u.untilNextLevel == r.untilNextLevel)
  {
  }

  /** Updating only the banned flag leaves every other field as it was. */
  lemma UpdateOnlyBanned(r: Record, b: bool)
    ensures Updated(r, None, None, None, None, None, Some(b), None) == r.(banned := b)
  {
  }

  /** A created row is consistent. */
  lemma NewRecordConsistent(id: int, name: string, title: string, race: Race, profession: Profession,
                            birthday: int, banned: Option<bool>, experience: int, yearOf: int -> int)
    requires !IsYearInvalid(yearOf(birthday)) && !IsExperienceInvalid(experience)
    ensures ConsistentRecord(NewRecord(id, name, title, race, profession, birthday, banned, experience), yearOf)
  {
  }

  /** An update that passes its checks keeps a consistent row consistent. */
  lemma UpdatedConsistent(r: Record, name: Option<string>, title: Option<string>, race: Option<Race>,
                          profession: Option<Profession>, birthday: Option<int>, banned: Option<bool>,
                          experience: Option<int>, yearOf: int -> int)
    requires ConsistentRecord(r, yearOf)
    requires birthday.Some? ==> !IsYearInvalid(yearOf(birthday.value))
    requires experience.Some? ==> !IsExperienceInvalid(experience.value)
    ensures ConsistentRecord(Updated(r, name, title, race, profession, birthday, banned, experience), yearOf)
  {
  }

  /** An update that passes its checks keeps a consistent table consistent. */
  lemma UpdateKeepsConsistent(rows: map<int, Record>, k: int, name: Option<string>, title: Option<string>,
                              race: Option<Race>, profession: Option<Profession>, birthday: Option<int>,
                              banned: Option<bool>, experience: Option<int>, yearOf: int -> int)
    requires AllConsistent(rows, yearOf) && k in rows
    requires birthday.Some? ==> !IsYearInvalid(yearOf(birthday.value))
    requires experience.Some? ==> !IsExperienceInvalid(experience.value)
    ensures AllConsistent(rows[k := Updated(rows[k], name, title, race, profession, birthday, banned, experience)],
                          yearOf)
  {
    UpdatedConsistent(rows[k], name, title, race, profession, birthday, banned, experience, yearOf);
    StoreConsistent(rows, k, Updated(rows[k], name, title, race, profession, birthday, banned, experience), yearOf);
  }

  /** A successful create keeps a consistent table consistent. */
  lemma CreateKeepsConsistent(rows: map<int, Record>, k: int, name: string, title: string, race: Race,
                              profession: Profession, birthday: int, banned: Option<bool>, experience: int,
                              yearOf: int -> int)
    requires AllConsistent(rows, yearOf)
    requires !IsYearInvalid(yearOf(birthday)) && !IsExperienceInvalid(experience)
    ensures AllConsistent(rows[k := NewRecord(k, name, title, race, profession, birthday, banned, experience)],
                          yearOf)
  {
    NewRecordConsistent(k, name, title, race, profession, birthday, banned, experience, yearOf);
    StoreConsistent(rows, k, NewRecord(k, name, title, race, profession, birthday, banned, experience), yearOf);
  }

  /** A delete keeps a consistent table consistent. */
  lemma DeleteKeepsConsistent(rows: map<int, Record>, k: int, yearOf: int -> int)
    requires AllConsistent(rows, yearOf)
    ensures AllConsistent(rows - {k}, yearOf)
  {
  }

  class PlayerService {
    const repository: PlayerRepository
    /** `getYear`: the calendar year of an instant (in milliseconds) in the default time zone. */
    const yearOf: int -> int

    constructor (repository: PlayerRepository, yearOf: int -> int)
      requires repository.Valid()
      ensures this.repository == repository && this.yearOf == yearOf
      ensures Valid()
    {
      this.repository := repository;
      this.yearOf := yearOf;
    }

    ghost predicate Valid()
      reads repository
    {
      repository.Valid()
    }

    /** The checks `createPlayer` makes, in its order; any failing one rejects the request. */
    predicate CreateRejects(name: Option<string>, title: Option<string>, race: Option<Race>,
                            profession: Option<Profession>, birthday: Option<int>, experience: Option<int>)
    {
      || IsNameInvalid(name)
      || IsTitleInvalid(title)
      || race.None?
      || profession.None?
      || birthday.None? || IsYearInvalid(yearOf(birthday.value))
      || experience.None? || IsExperienceInvalid(experience.value)
    }

    /** `hasPlayer`. */
    method HasPlayer(id: int) returns (b: bool)
      ensures b <==> id in repository.rows
    {
      b := repository.ExistsById(id);
    }

    /**
     * `checkValidId`: a null or non-positive id is a bad request, an id with no
     * player is not found, and only a stored id passes.
     */
    method CheckValidId(id: Option<int>) returns (o: Outcome)
      requires Valid()
      ensures o == Fail(BadRequest) <==> id.None? || id.value < 1
      ensures o == Fail(NotFound) <==> id.Some? && 1 <= id.value && id.value !in repository.rows
      ensures o == Done <==> id.Some? && id.value in repository.rows
    {
      if id.None? || id.value < 1 {
        return Fail(BadRequest);
      }
      var present := HasPlayer(id.value);
      if !present {
        return Fail(NotFound);
      }
      return Done;
    }

    /** `getPlayer`: the stored player with that id. */
    method GetPlayer(id: Option<int>) returns (r: Result<Player>)
      requires Valid()
      ensures r.Ok? <==> id.Some? && id.value in repository.rows
      ensures r.Err? ==> r.error == (if id.None? || id.value < 1 then BadRequest else NotFound)
      ensures r.Ok? ==> fresh(r.value) && r.value.Holds(repository.rows[id.value])
    {
      var check := CheckValidId(id);
      if check.Fail? {
        return Err(check.error);
      }
      var found := repository.FindById(id.value);
      r := Ok(found.value);
    }

    /** `deletePlayer`: removes exactly the row with that id. */
    method DeletePlayer(id: Option<int>) returns (o: Outcome)
      requires Valid()
      modifies repository
      ensures Valid()
      ensures o.Done? <==> id.Some? && id.value in old(repository.rows)
      ensures o.Fail? ==> o.error == (if id.None? || id.value < 1 then BadRequest else NotFound)
      ensures o.Fail? ==> repository.rows == old(repository.rows)
      ensures o.Done? ==> repository.rows == old(repository.rows) - {id.value}
      ensures repository.nextId == old(repository.nextId)
    {
      o := CheckValidId(id);
      if o.Done? {
        repository.DeleteById(id.value);
      }
    }

    /** One link of the search chain: when its argument is supplied, keep only the players passing it. */
    static method Narrow(all: seq<Record>, supplied: bool, c: Criterion,
                         ghost listing: seq<Record>, ghost applied: seq<Criterion>)
      returns (narrowed: seq<Record>, ghost applied': seq<Criterion>)
      requires all == Select(listing, applied)
      ensures applied' == applied + StepIf(supplied, c)
      ensures narrowed == Select(listing, applied')
    {
      narrowed, applied' := all, applied;
      if supplied {
        SelectThen(listing, applied, c);
        narrowed, applied' := Select(all, [c]), applied + [c];
      }
    }

    /**
     * The eleven-argument `getPlayers`: enumerate the table, then narrow the list
     * by each supplied argument in turn.
     */
    method GetPlayers(f: PlayerFilter) returns (r: seq<Record>, ghost listing: seq<Record>)
      requires Valid()
      ensures IsListing(listing, repository.rows)
      ensures r == Select(listing, Steps(f))
      ensures forall x :: x in r <==> x in listing && Matches(x, f)
    {
      var all := repository.FindAll();
      listing := all;
      ghost var applied;
      r, applied := FilterChain(all, f);
      SearchMembers(listing, f);
    }

    /** The chain of `filter` calls: one link per argument, in the order `getPlayers` applies them. */
    static method FilterChain(all: seq<Record>, f: PlayerFilter)
      returns (narrowed: seq<Record>, ghost applied: seq<Criterion>)
      ensures applied == Steps(f)
      ensures narrowed == Select(all, applied)
    {
      ghost var listing := all;
      narrowed, applied := all, [];
      SelectNothing(listing);
      narrowed, applied := Narrow(narrowed, f.name.Some?, NameContains(f.name.GetOr([])), listing, applied);
      narrowed, applied := Narrow(narrowed, f.title.Some?, TitleContains(f.title.GetOr([])), listing, applied);
      narrowed, applied := Narrow(narrowed, f.race.Some?, RaceIs(f.race.GetOr(Race([]))), listing, applied);
      narrowed, applied := Narrow(narrowed, f.profession.Some?, ProfessionIs(f.profession.GetOr(Profession([]))), listing, applied);
      narrowed, applied := Narrow(narrowed, f.minExperience.Some?, ExperienceAtLeast(f.minExperience.GetOr(0)), listing, applied);
      narrowed, applied := Narrow(narrowed, f.maxExperience.Some?, ExperienceAtMost(f.maxExperience.GetOr(0)), listing, applied);
      narrowed, applied := Narrow(narrowed, f.minLevel.Some?, LevelAtLeast(f.minLevel.GetOr(0)), listing, applied);
      narrowed, applied := Narrow(narrowed, f.maxLevel.Some?, LevelAtMost(f.maxLevel.GetOr(0)), listing, applied);
      narrowed, applied := Narrow(narrowed, f.banned.Some?, BannedIs(f.banned.GetOr(false)), listing, applied);
      narrowed, applied := Narrow(narrowed, f.after.Some?, BornAfter(f.after.GetOr(0)), listing, applied);
      narrowed, applied := Narrow(narrowed, f.before.Some?, BornBefore(f.before.GetOr(0)), listing, applied);
      StepsFromNothing(f);
    }

    /**
     * The fourteen-argument `getPlayers`: the filtered list, sorted in place by the
     * requested order, cut to the requested page.
     */
    method GetPlayersPage(f: PlayerFilter, order: Option<PlayerOrder>,
                          pageNumber: Option<int>, pageSize: Option<int>)
      returns (r: Result<seq<Record>>, ghost listing: seq<Record>)
      requires Valid() && PageArgsInRange(pageNumber, pageSize)
      ensures IsListing(listing, repository.rows)
      ensures r == GetPage(StableSort(Select(listing, Steps(f)), order), pageNumber, pageSize)
    {
      var all;
      all, listing := GetPlayers(f);
      var a := new Record[|all|](i requires 0 <= i < |all| => all[i]);
      assert a[..] == all;
      SortInPlace(a, order);
      r := GetPage(a[..], pageNumber, pageSize);
    }

    /** `getPlayersCount`: how many stored players the search selects. */
    method GetPlayersCount(f: PlayerFilter) returns (n: int)
      requires Valid()
      ensures n == |set k | k in repository.rows && Matches(repository.rows[k], f)|
    {
      var all;
      ghost var listing;
      all, listing := GetPlayers(f);
      ListingCount(listing, repository.rows, Steps(f));
      assert MatchingIds(repository.rows, Steps(f)) == set k | k in repository.rows && Matches(repository.rows[k], f) by {
        forall k | k in repository.rows {
          StepsMatch(repository.rows[k], f);
        }
      }
      n := |all|;
    }

    /** The new entity `createPlayer` fills in, one setter per field, before saving it. */
    static method BuildPlayer(name: Option<string>, title: Option<string>, race: Option<Race>,
                              profession: Option<Profession>, birthday: Option<int>, experience: Option<int>,
                              banned: bool, level: int, untilNextLevel: int)
      returns (player: Player)
      ensures fresh(player) && player.id == None
      ensures player.name == name && player.title == title
      ensures player.race == race && player.profession == profession
      ensures player.birthday == birthday && player.experience == experience && player.banned == Some(banned)
      ensures player.level == Some(level) && player.untilNextLevel == Some(untilNextLevel)
    {
      player := new Player();
      player.SetName(name);
      player.SetTitle(title);
      player.SetRace(race);
      player.SetProfession(profession);
      player.SetBirthday(birthday);
      player.SetExperience(experience);
      player.SetBanned(Some(banned));
      player.SetLevel(Some(level));
      player.SetUntilNextLevel(Some(untilNextLevel));
    }

    /**
     * `createPlayer`: rejects a request failing any check; otherwise stores one new
     * player under a fresh id, with banned defaulting to false and the derived
     * fields computed from the experience.
     */
    method CreatePlayer(name: Option<string>, title: Option<string>, race: Option<Race>,
                        profession: Option<Profession>, birthday: Option<int>, banned: Option<bool>,
                        experience: Option<int>)
      returns (r: Result<Player>)
      requires Valid()
      modifies repository
      ensures Valid()
      ensures r.Err? <==> CreateRejects(name, title, race, profession, birthday, experience)
      ensures r.Err? ==> r.error == BadRequest && unchanged(repository)
      ensures r.Ok? ==>
        var k := old(repository.nextId);
        && k !in old(repository.rows)
        && repository.nextId == k + 1
        && repository.rows == old(repository.rows)[k := NewRecord(k, name.value, title.value, race.value,
             profession.value, birthday.value, banned, experience.value)]
        && fresh(r.value) && r.value.Holds(repository.rows[k])
    {
      if IsNameInvalid(name) { return Err(BadRequest); }
      if IsTitleInvalid(title) { return Err(BadRequest); }
      if race.None? { return Err(BadRequest); }
      if profession.None? { return Err(BadRequest); }
      if birthday.None? || yearOf(birthday.value) < MinYear || yearOf(birthday.value) > MaxYear {
        return Err(BadRequest);
      }
      if experience.None? || experience.value > MaxExperience || experience.value < 0 {
        return Err(BadRequest);
      }
      var isBanned := if banned.None? then false else banned.value;

      var level := LevelOf(experience.value);
      var untilNextLevel := UntilNextLevelOf(experience.value);

      var player := BuildPlayer(name, title, race, profession, birthday, experience, isBanned,
                                level, untilNextLevel);
      ghost var k := repository.nextId;
      var saved := repository.Save(player);
      assert player.ToRecord(k) == NewRecord(k, name.value, title.value, race.value, profession.value,
                                            birthday.value, banned, experience.value);
      r := Ok(saved);
    }

    /** The first four writes of `updatePlayer`: name, title, race and profession, each when supplied. */
    static method PatchProfile(player: Player, ghost before: Record, name: Option<string>, title: Option<string>,
                               race: Option<Race>, profession: Option<Profession>)
      requires player.Holds(before)
      modifies player`name, player`title, player`race, player`profession
      ensures player.Holds(before.(name := name.GetOr(before.name), title := title.GetOr(before.title),
                                   race := race.GetOr(before.race), profession := profession.GetOr(before.profession)))
    {
      if name.Some? { player.SetName(name); }
      if title.Some? { player.SetTitle(title); }
      if race.Some? { player.SetRace(race); }
      if profession.Some? { player.SetProfession(profession); }
    }

    /** The writes of `updatePlayer` for an accepted experience: experience, then untilNextLevel and level from it. */
    static method PatchProgress(player: Player, experience: int)
      requires 0 <= experience
      modifies player`experience, player`untilNextLevel, player`level
      ensures player.experience == Some(experience)
      ensures player.level == Some(LevelOf(experience))
      ensures player.untilNextLevel == Some(UntilNextLevelOf(experience))
    {
      player.SetExperience(Some(experience));

      var level := LevelOf(experience);
      var untilNextLevel := UntilNextLevelOf(experience);

      player.SetUntilNextLevel(Some(untilNextLevel));
      player.SetLevel(Some(level));
    }

    /**
     * The field writes `updatePlayer` makes on the loaded entity: each supplied
     * field is set in turn, and a birthday or experience out of range stops it
     * with false, before any later field is written.
     */
    method Patch(player: Player, ghost before: Record, name: Option<string>, title: Option<string>,
                 race: Option<Race>, profession: Option<Profession>, birthday: Option<int>,
                 banned: Option<bool>, experience: Option<int>)
      returns (ok: bool)
      requires player.Holds(before)
      modifies player
      ensures ok <==> && !(birthday.Some? && IsYearInvalid(yearOf(birthday.value)))
                      && !(experience.Some? && IsExperienceInvalid(experience.value))
      ensures ok ==> player.Holds(Updated(before, name, title, race, profession, birthday, banned, experience))
    {
      PatchProfile(player, before, name, title, race, profession);
      if birthday.Some? {
        if yearOf(birthday.value) < MinYear || yearOf(birthday.value) > MaxYear {
          return false;
        }
        player.SetBirthday(birthday);
      }
      if experience.Some? {
        if experience.value > MaxExperience || experience.value < 0 {
          return false;
        }
        PatchProgress(player, experience.value);
      }
      if banned.Some? { player.SetBanned(banned); }
      ok := true;
    }

    /**
     * The part of `updatePlayer` after the id check: load the stored player, write
     * the supplied fields, and save it unless a birthday or experience is out of range.
     */
    method UpdateStored(id: int, name: Option<string>, title: Option<string>, race: Option<Race>,
                        profession: Option<Profession>, birthday: Option<int>, banned: Option<bool>,
                        experience: Option<int>)
      returns (r: Result<Player>)
      requires Valid() && id in repository.rows
      modifies repository
      ensures Valid()
      ensures r.Err? <==>
        || (birthday.Some? && IsYearInvalid(yearOf(birthday.value)))
        || (experience.Some? && IsExperienceInvalid(experience.value))
      ensures r.Err? ==> r.error == BadRequest && unchanged(repository)
      ensures r.Ok? ==>
        && repository.nextId == old(repository.nextId)
        && repository.rows == old(repository.rows)[id := Updated(old(repository.rows)[id],
             name, title, race, profession, birthday, banned, experience)]
        && fresh(r.value) && r.value.Holds(repository.rows[id])
    {
      var found := repository.FindById(id);
      var player := found.value;
      ghost var before := repository.rows[id];
      assert before.id == id;

      var ok := Patch(player, before, name, title, race, profession, birthday, banned, experience);
      if !ok {
        return Err(BadRequest);
      }
      ghost var after := Updated(before, name, title, race, profession, birthday, banned, experience);
      assert repository.rows == old(repository.rows) && player.id == Some(id);

      var saved := repository.Save(player);
      player.HoldsOne(repository.rows[id], after);
      r := Ok(saved);
    }

    /**
     * `updatePlayer`: after the id check, changes only the supplied fields; a
     * birthday or experience out of range rejects the request before anything is
     * stored. Name and title are not length-checked here.
     */
    method UpdatePlayer(id: Option<int>, name: Option<string>, title: Option<string>, race: Option<Race>,
                        profession: Option<Profession>, birthday: Option<int>, banned: Option<bool>,
                        experience: Option<int>)
      returns (r: Result<Player>)
      requires Valid()
      modifies repository
      ensures Valid()
      ensures r.Err? <==>
        || id.None? || id.value < 1 || id.value !in old(repository.rows)
        || (birthday.Some? && IsYearInvalid(yearOf(birthday.value)))
        || (experience.Some? && IsExperienceInvalid(experience.value))
      ensures r.Err? ==> unchanged(repository)
      ensures r == Err(NotFound) <==> id.Some? && 1 <= id.value && id.value !in old(repository.rows)
      ensures r.Err? && r.error != NotFound ==> r.error == BadRequest
      ensures r.Ok? ==>
        && repository.nextId == old(repository.nextId)
        && repository.rows == old(repository.rows)[id.value := Updated(old(repository.rows)[id.value],
             name, title, race, profession, birthday, banned, experience)]
        && fresh(r.value) && r.value.Holds(repository.rows[id.value])
    {
      var check := CheckValidId(id);
      if check.Fail? {
        return Err(check.error);
      }
      r := UpdateStored(id.value, name, title, race, profession, birthday, banned, experience);
    }

    /** A client that creates through the service keeps every stored player consistent. */
    method CreatePlayerKeepsConsistent(name: Option<string>, title: Option<string>, race: Option<Race>,
                                       profession: Option<Profession>, birthday: Option<int>, banned: Option<bool>,
                                       experience: Option<int>)
      returns (r: Result<Player>)
      requires Valid() && AllConsistent(repository.rows, yearOf)
      modifies repository
      ensures Valid() && AllConsistent(repository.rows, yearOf)
      ensures r.Err? <==> CreateRejects(name, title, race, profession, birthday, experience)
    {
      ghost var rows, k := repository.rows, repository.nextId;
      r := CreatePlayer(name, title, race, profession, birthday, banned, experience);
      if r.Ok? {
        CreateKeepsConsistent(rows, k, name.value, title.value, race.value, profession.value, birthday.value,
                              banned, experience.value, yearOf);
      }
    }

    /** A client that updates through the service keeps every stored player consistent. */
    method UpdatePlayerKeepsConsistent(id: Option<int>, name: Option<string>, title: Option<string>,
                                       race: Option<Race>, profession: Option<Profession>, birthday: Option<int>,
                                       banned: Option<bool>, experience: Option<int>)
      returns (r: Result<Player>)
      requires Valid() && AllConsistent(repository.rows, yearOf)
      modifies repository
      ensures Valid() && AllConsistent(repository.rows, yearOf)
    {
      ghost var rows := repository.rows;
      r := UpdatePlayer(id, name, title, race, profession, birthday, banned, experience);
      if r.Ok? {
        UpdateKeepsConsistent(rows, id.value, name, title, race, profession, birthday, banned, experience, yearOf);
      }
    }

    /** A client that deletes through the service keeps every stored player consistent. */
    method DeletePlayerKeepsConsistent(id: Option<int>) returns (o: Outcome)
      requires Valid() && AllConsistent(repository.rows, yearOf)
      modifies repository
      ensures Valid() && AllConsistent(repository.rows, yearOf)
    {
      ghost var rows := repository.rows;
      o := DeletePlayer(id);
      if o.Done? {
        DeleteKeepsConsistent(rows, id.value, yearOf);
      }
    }
  }
}
