/**
 * The player table behind the service: a map from id to the stored field values,
 * with identity-column id generation (ids are handed out in increasing order and
 * never reused).
 */
module Repository {
  import opened Wrappers
  import opened PlayerEntity
  import opened Filtering

  /** No id occurs twice. */
  predicate Distinct(ids: seq<int>) {
    forall i, j :: 0 <= i < j < |ids| ==> ids[i] != ids[j]
  }

  /** `ids` without `id`, the others in their order. */
  function Without(ids: seq<int>, id: int): (r: seq<int>)
    ensures forall k :: k in r <==> k in ids && k != id
    ensures Distinct(ids) ==> Distinct(r)
    decreases |ids|
  {
    if ids == [] then []
    else if ids[0] == id then Without(ids[1..], id)
    else
      var rest := Without(ids[1..], id);
      assert Distinct(ids) ==> Distinct(ids[1..]) && ids[0] !in ids[1..];
      [ids[0]] + rest
  }

  class PlayerRepository {
    /** The stored players, by id. */
    var rows: map<int, Record>
    /** The ids of the stored rows in the table's physical order, which no query promises. */
    var ids: seq<int>
    /** The id the next inserted player receives. */
    var nextId: int

    /**
     * Every row is stored under its own id, every id is positive and already
     * handed out, and the row order lists each stored id once.
     */
    ghost predicate Valid()
      reads this
    {
      && 1 <= nextId
      && (forall k :: k in rows ==> rows[k].id == k && 1 <= k < nextId)
      && (forall k :: k in rows <==> k in ids)
      && Distinct(ids)
    }

    /** An empty table whose first generated id is 1. */
    constructor ()
      ensures Valid() && rows == map[] && nextId == 1
    {
      rows, ids, nextId := map[], [], 1;
    }

    /** `existsById`. */
    method ExistsById(id: int) returns (b: bool)
      ensures b <==> id in rows
    {
      b := id in rows;
    }

    /** `findById`: a new entity object loaded from the row, or nothing. */
    method FindById(id: int) returns (p: Option<Player>)
      ensures p.Some? <==> id in rows
      ensures p.Some? ==> fresh(p.value) && p.value.Holds(rows[id])
    {
      if id in rows {
        var r := rows[id];
        var q := new Player();
        q.id, q.name, q.title, q.race, q.profession := Some(r.id), Some(r.name), Some(r.title), Some(r.race), Some(r.profession);
        q.birthday, q.banned, q.experience := Some(r.birthday), Some(r.banned), Some(r.experience);
        q.level, q.untilNextLevel := Some(r.level), Some(r.untilNextLevel);
        p := Some(q);
      } else {
        p := None;
      }
    }

    /** `findAll`: every stored player once, in the table's row order. */
    method FindAll() returns (all: seq<Record>)
      requires Valid()
      ensures IsListing(all, rows)
    {
      all := [];
      for i := 0 to |ids|
        invariant |all| == i
        invariant forall j :: 0 <= j < i ==> ids[j] in rows && all[j] == rows[ids[j]] && all[j].id == ids[j]
      {
        assert ids[i] in ids;
        all := all + [rows[ids[i]]];
      }
      forall k | k in rows ensures exists i :: 0 <= i < |all| && all[i].id == k {
        var i :| 0 <= i < |ids| && ids[i] == k;
        assert all[i].id == k;
      }
    }

    /** `deleteById`: the row with that id is gone, nothing else changes. */
    method DeleteById(id: int)
      requires Valid()
      modifies this
      ensures Valid()
      ensures rows == old(rows) - {id} && nextId == old(nextId)
    {
      rows, ids := rows - {id}, Without(ids, id);
    }

    /**
     * `save`: an entity without an id is inserted under the next generated id,
     * which is written back into it; an entity with an id overwrites its row.
     */
    method Save(p: Player) returns (saved: Player)
      requires Valid() && p.Complete()
      requires p.id.Some? ==> p.id.value in rows
      modifies this, p`id
      ensures Valid() && saved == p
      ensures old(p.id).None? ==> p.id == Some(old(nextId)) && nextId == old(nextId) + 1
      ensures old(p.id).Some? ==> p.id == old(p.id) && nextId == old(nextId)
      ensures rows == old(rows)[p.id.value := p.ToRecord(p.id.value)]
      ensures p.Holds(rows[p.id.value])
    {
      if p.id.None? {
        p.SetId(Some(nextId));
        assert nextId !in ids;
        ids := ids + [nextId];
        nextId := nextId + 1;
      }
      rows := rows[p.id.value := p.ToRecord(p.id.value)];
      saved := p;
    }
  }
}
