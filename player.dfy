/** The Player entity: a mutable record of ten nullable fields, each with a getter and a setter. */
module PlayerEntity {
  import opened Wrappers

  /** A constant of the Race enumeration, kept by its name (the column is stored as the enum's name). */
  datatype Race = Race(constant: string)

  /** A constant of the Profession enumeration, kept by its name. */
  datatype Profession = Profession(constant: string)

  /**
   * The field values of a stored player: what a row of the player table holds.
   * `birthday` is the instant of the `Date`, in milliseconds since the epoch.
   */
  datatype Record = Record(
    id: int,
    name: string,
    title: string,
    race: Race,
    profession: Profession,
    birthday: int,
    banned: bool,
    experience: int,
    level: int,
    untilNextLevel: int)

  /**
   * The entity object. Every field is a nullable reference and has no initialiser;
   * the class itself ties no field to another (level and untilNextLevel are set
   * independently of experience).
   */
  class Player {
    var id: Option<int>
    var name: Option<string>
    var title: Option<string>
    var race: Option<Race>
    var profession: Option<Profession>
    var birthday: Option<int>
    var banned: Option<bool>
    var experience: Option<int>
    var level: Option<int>
    var untilNextLevel: Option<int>

    /** `new Player()`: every field starts out null. */
    constructor ()
      ensures id.None? && name.None? && title.None? && race.None? && profession.None?
      ensures birthday.None? && banned.None? && experience.None? && level.None? && untilNextLevel.None?
    {
      id, name, title, race, profession := None, None, None, None, None;
      birthday, banned, experience, level, untilNextLevel := None, None, None, None, None;
    }

    /** All fields but the id are set: the entity can be written as a row. */
    predicate Complete()
      reads this
    {
      name.Some? && title.Some? && race.Some? && profession.Some? && birthday.Some?
      && banned.Some? && experience.Some? && level.Some? && untilNextLevel.Some?
    }

    /** The object's fields are exactly the values of `r`. */
    predicate Holds(r: Record)
      reads this
    {
      id == Some(r.id) && name == Some(r.name) && title == Some(r.title)
      && race == Some(r.race) && profession == Some(r.profession)
      && birthday == Some(r.birthday) && banned == Some(r.banned)
      && experience == Some(r.experience) && level == Some(r.level)
      && untilNextLevel == Some(r.untilNextLevel)
    }

    /** The object's fields determine the record they hold. */
    lemma HoldsOne(r1: Record, r2: Record)
      requires Holds(r1) && Holds(r2)
      ensures r1 == r2
    {
    }

    /** The row these fields make once the entity is stored under `key`. */
    function ToRecord(key: int): (r: Record)
      reads this
      requires Complete()
      ensures id == Some(key) ==> Holds(r)
    {
      Record(key, name.value, title.value, race.value, profession.value, birthday.value,
             banned.value, experience.value, level.value, untilNextLevel.value)
    }

    method GetId() returns (r: Option<int>) ensures r == id { r := id; }
    method SetId(v: Option<int>) modifies this`id ensures id == v { id := v; }

    method GetName() returns (r: Option<string>) ensures r == name { r := name; }
    method SetName(v: Option<string>) modifies this`name ensures name == v { name := v; }

    method GetTitle() returns (r: Option<string>) ensures r == title { r := title; }
    method SetTitle(v: Option<string>) modifies this`title ensures title == v { title := v; }

    method GetRace() returns (r: Option<Race>) ensures r == race { r := race; }
    method SetRace(v: Option<Race>) modifies this`race ensures race == v { race := v; }

    method GetProfession() returns (r: Option<Profession>) ensures r == profession { r := profession; }
    method SetProfession(v: Option<Profession>) modifies this`profession ensures profession == v { profession := v; }

    method GetBirthday() returns (r: Option<int>) ensures r == birthday { r := birthday; }
    method SetBirthday(v: Option<int>) modifies this`birthday ensures birthday == v { birthday := v; }

    method GetBanned() returns (r: Option<bool>) ensures r == banned { r := banned; }
    method SetBanned(v: Option<bool>) modifies this`banned ensures banned == v { banned := v; }

    method GetExperience() returns (r: Option<int>) ensures r == experience { r := experience; }
    method SetExperience(v: Option<int>) modifies this`experience ensures experience == v { experience := v; }

    method GetLevel() returns (r: Option<int>) ensures r == level { r := level; }
    method SetLevel(v: Option<int>) modifies this`level ensures level == v { level := v; }

    method GetUntilNextLevel() returns (r: Option<int>) ensures r == untilNextLevel { r := untilNextLevel; }
    method SetUntilNextLevel(v: Option<int>) modifies this`untilNextLevel ensures untilNextLevel == v { untilNextLevel := v; }
  }

  /**
   * A client of the class: setting the experience leaves the level the getter
   * reports as it was, and the experience getter then reports the new value.
   */
  method SetExperienceKeepsLevel(p: Player, e: Option<int>) returns (gotExperience: Option<int>, gotLevel: Option<int>)
    modifies p
    ensures gotExperience == e && gotLevel == old(p.level)
    ensures p.id == old(p.id) && p.name == old(p.name) && p.title == old(p.title)
    ensures p.race == old(p.race) && p.profession == old(p.profession) && p.birthday == old(p.birthday)
    ensures p.banned == old(p.banned) && p.level == old(p.level) && p.untilNextLevel == old(p.untilNextLevel)
  {
    p.SetExperience(e);
    gotExperience := p.GetExperience();
    gotLevel := p.GetLevel();
  }
}
